/**
 * `ProcessorPlayOutParticleEffect`: expands one particle effect into the
 * spawn-particle packets the client understands. The particle's capability
 * (item, resizable, coloured, note, or plain with motion) is a variant;
 * float arithmetic is modelled with reals and the random jitter source is
 * a parameter (`rnd(i)` is the i-th triple of `nextFloat` draws in [0,1)).
 */
module Particles {
  import opened Wrappers

  datatype Vec3r = Vec3r(x: real, y: real, z: real)

  const ZERO: Vec3r := Vec3r(0.0, 0.0, 0.0)

  /** The particle types the processor singles out by identity. */
  datatype Kind = ItemCrack | BlockCrack | BlockDust | ExplosionLarge | Redstone | WaterSplash | OtherKind(id: int)

  /** A `java.awt.Color`: its equality compares all four channels, alpha included. */
  datatype Color = Color(red: int, green: int, blue: int, alpha: int)

  /** A particle type: its identity, whether it moves, and (if colourable) its default colour. */
  datatype ParticleType = ParticleType(kind: Kind, hasMotion: bool, defaultColor: Color)

  /** An item stack's type: its item id, and the internal id of its block if it has one. */
  datatype Item = Item(itemId: int, blockId: Option<int>)

  /** The capability interface the effect implements. */
  datatype Capability =
    | ItemCap(item: Item)
    | Resizable(size: real)
    | Colored(color: Color)
    | NoteCap(noteId: int)
    | Plain

  datatype Effect = Effect(ptype: ParticleType, offset: Vec3r, motion: Vec3r, count: int, capability: Capability)

  /**
   * `MessagePlayOutSpawnParticle` as constructed here. Every call site
   * passes `count` in the first slot (`lead`).
   */
  datatype SpawnParticle = SpawnParticle(lead: int, position: Vec3r, offset: Vec3r, data: real, repeat: int, extra: seq<int>)

  /**
   * The extra int array: empty unless the effect carries an item; for an
   * item-crack the item id, for block crack/dust the block id (packed as
   * `data << 12 | id` with data 0), for any other type 0. `None` when that
   * value is 0: the processor then emits nothing.
   */
  function Extra(e: Effect): (r: Option<seq<int>>)
    ensures !e.capability.ItemCap? ==> r == Some([])
    ensures r.Some? && e.capability.ItemCap? ==> |r.value| == 1 && r.value[0] != 0
    ensures e.capability.ItemCap? && e.ptype.kind.ItemCrack? ==> (r.Some? <==> e.capability.item.itemId != 0)
    ensures e.capability.ItemCap? && (e.ptype.kind.BlockCrack? || e.ptype.kind.BlockDust?)
            ==> (r.Some? <==> e.capability.item.blockId.Some? && e.capability.item.blockId.value != 0)
    ensures e.capability.ItemCap? && !(e.ptype.kind.ItemCrack? || e.ptype.kind.BlockCrack? || e.ptype.kind.BlockDust?)
            ==> r.None?
  {
    match e.capability
    case ItemCap(item) =>
      var extraData :=
        if e.ptype.kind.ItemCrack? then item.itemId
        else if e.ptype.kind.BlockCrack? || e.ptype.kind.BlockDust? then
          (match item.blockId case Some(id) => id case None => 0)
        else 0;
      if extraData == 0 then None else Some([extraData])
    case _ => Some([])
  }

  /** The outcome of deriving the parameters: a short single packet, or (f0, f1, f2). */
  datatype Derived = Short | Params(f: Vec3r)

  /** `(float) red / 255f` etc. */
  function Channel(c: int): real { (c as real) / 255.0 }

  /**
   * The parameter derivation of the capability chain. A size, a note or a
   * motion that is sent is never all zero: only a colour, or a particle
   * with no capability and no motion, reaches the final all-zero check.
   */
  function Derive(e: Effect): (r: Derived)
    ensures r.Params? && r.f == ZERO ==> e.capability.Colored? || (!e.ptype.hasMotion && (e.capability.Plain? || e.capability.ItemCap?))
  {
    match e.capability
    case Resizable(size) =>
      var s := if e.ptype.kind.ExplosionLarge? then -size * 2.0 + 2.0 else size;
      if s == 0.0 then Short else Params(Vec3r(s, 0.0, 0.0))
    case Colored(c) =>
      if c == e.ptype.defaultColor then Short
      else
        var f0 := Channel(c.red);
        Params(Vec3r(if f0 == 0.0 && e.ptype.kind.Redstone? then 0.00001 else f0, Channel(c.green), Channel(c.blue)))
    case NoteCap(id) =>
      if id == 0 then Short else Params(Vec3r((id as real) / 24.0, 0.0, 0.0))
    case _ =>
      if e.ptype.hasMotion then
        var my := if e.ptype.kind.WaterSplash? then 0.0 else e.motion.y;
        if e.motion.x == 0.0 && my == 0.0 && e.motion.z == 0.0 then Short
        else Params(Vec3r(e.motion.x, my, e.motion.z))
      else Params(ZERO)
  }

  /** `p + (r * 2 - 1) * o` per axis. */
  function Jitter(p: Vec3r, o: Vec3r, r: Vec3r): Vec3r {
    Vec3r(p.x + (r.x * 2.0 - 1.0) * o.x, p.y + (r.y * 2.0 - 1.0) * o.y, p.z + (r.z * 2.0 - 1.0) * o.z)
  }

  /** The single packet that lets the client repeat the particle `count` times. */
  function ShortPacket(e: Effect, position: Vec3r, extra: seq<int>): SpawnParticle {
    SpawnParticle(e.count, position, e.offset, 0.0, e.count, extra)
  }

  /** `process` as the source has it. */
  function ProcessAsWritten(e: Effect, position: Vec3r, rnd: nat -> Vec3r): (out: seq<SpawnParticle>)
    ensures e.count <= 0 || Extra(e).None? <==> out == []
    ensures |out| == 0 || |out| == 1 || |out| == e.count
    ensures forall i :: 0 <= i < |out| ==> out[i].lead == e.count && out[i].extra == Extra(e).value
  {
    if e.count <= 0 then []
    else match Extra(e)
      case None => []
      case Some(extra) =>
        match Derive(e)
        case Short => [ShortPacket(e, position, extra)]
        case Params(f) =>
          if f == ZERO then [ShortPacket(e, position, extra)]
          else if e.offset == ZERO then
            seq(e.count, i => SpawnParticle(e.count, position, e.offset, 1.0, 0, extra))
          else
            seq(e.count, i requires 0 <= i => SpawnParticle(e.count, Jitter(position, e.offset, rnd(i)), f, 1.0, 0, extra))
  }

  /** `process` as intended: a zero offset still sends (f0, f1, f2) in the offset slot. */
  function Process(e: Effect, position: Vec3r, rnd: nat -> Vec3r): (out: seq<SpawnParticle>)
    ensures e.count <= 0 || Extra(e).None? <==> out == []
    ensures |out| == 0 || |out| == 1 || |out| == e.count
    ensures forall i :: 0 <= i < |out| ==> out[i].lead == e.count && out[i].extra == Extra(e).value
    ensures e.count > 0 && Extra(e).Some? && Derive(e).Params? && Derive(e).f != ZERO
            ==> |out| == e.count && forall i :: 0 <= i < |out| ==> out[i].offset == Derive(e).f
  {
    if e.count <= 0 then []
    else match Extra(e)
      case None => []
      case Some(extra) =>
        match Derive(e)
        case Short => [ShortPacket(e, position, extra)]
        case Params(f) =>
          if f == ZERO then [ShortPacket(e, position, extra)]
          else if e.offset == ZERO then
            seq(e.count, i => SpawnParticle(e.count, position, f, 1.0, 0, extra))
          else
            seq(e.count, i requires 0 <= i => SpawnParticle(e.count, Jitter(position, e.offset, rnd(i)), f, 1.0, 0, extra))
  }

  /**
   * The output shape: nothing, one short packet repeating `count` times, or
   * `count` packets each with data 1 and repeat 0 -- the last exactly when
   * some derived parameter is nonzero. With an offset, each of those
   * packets is jittered by its own random triple and carries (f0, f1, f2)
   * in the offset slot; without one, each sits at the position itself.
   */
  lemma ProcessShape(e: Effect, position: Vec3r, rnd: nat -> Vec3r)
    requires e.count > 0 && Extra(e).Some?
    ensures var out := ProcessAsWritten(e, position, rnd);
      if Derive(e).Short? || Derive(e).f == ZERO then out == [ShortPacket(e, position, Extra(e).value)]
      else
        && |out| == e.count
        && (forall i :: 0 <= i < |out| ==> out[i].data == 1.0 && out[i].repeat == 0)
        && (e.offset != ZERO ==> forall i :: 0 <= i < |out| ==> out[i].offset == Derive(e).f && out[i].position == Jitter(position, e.offset, rnd(i)))
        && (e.offset == ZERO ==> forall i :: 0 <= i < |out| ==> out[i].position == position)
  {
  }

  /** The source's processor and the intended one differ only when the offset is zero. */
  lemma AgreesWithOffset(e: Effect, position: Vec3r, rnd: nat -> Vec3r)
    requires e.offset != ZERO
    ensures ProcessAsWritten(e, position, rnd) == Process(e, position, rnd)
  {
  }

  /**
   * With a zero offset and nonzero parameters, the source sends `count`
   * packets whose offset slot is zero: (f0, f1, f2) never reach the client,
   * while the intended processor sends them in every packet.
   */
  lemma ZeroOffsetDropsParams(e: Effect, position: Vec3r, rnd: nat -> Vec3r)
    requires e.count > 0 && Extra(e).Some? && Derive(e).Params? && Derive(e).f != ZERO
    requires e.offset == ZERO
    ensures |ProcessAsWritten(e, position, rnd)| == e.count == |Process(e, position, rnd)|
    ensures forall i :: 0 <= i < e.count ==> ProcessAsWritten(e, position, rnd)[i].offset == ZERO
    ensures forall i :: 0 <= i < e.count ==> Process(e, position, rnd)[i].offset == Derive(e).f != ZERO
  {
  }

  /** A concrete case: a non-default red redstone dust with no offset loses its colour. */
  lemma RedstoneColorLost()
    ensures var e := Effect(ParticleType(Redstone, false, Color(255, 0, 0, 255)), ZERO, ZERO, 3, Colored(Color(0, 0, 255, 255)));
      && Derive(e) == Params(Vec3r(0.00001, 0.0, 1.0))
      && ProcessAsWritten(e, ZERO, _ => ZERO)[0].offset == ZERO
      && Process(e, ZERO, _ => ZERO)[0].offset == Vec3r(0.00001, 0.0, 1.0)
  {
  }

  /** A large explosion of size 1 becomes size 0 and is sent as one packet, whatever the count. */
  lemma LargeExplosionSizeOne(e: Effect, position: Vec3r, rnd: nat -> Vec3r)
    requires e.ptype.kind.ExplosionLarge? && e.capability == Resizable(1.0) && e.count > 0
    ensures ProcessAsWritten(e, position, rnd) == [ShortPacket(e, position, [])]
  {
  }

  /**
   * A resizable particle sends its size, taken as `2 - 2 * size` for a
   * large explosion: a resulting size of 0 is one short packet, any other is
   * the first parameter.
   */
  lemma ResizableParams(e: Effect, position: Vec3r, rnd: nat -> Vec3r)
    requires e.capability.Resizable?
    ensures var s := if e.ptype.kind.ExplosionLarge? then 2.0 - 2.0 * e.capability.size else e.capability.size;
      && (Derive(e).Short? <==> s == 0.0)
      && (Derive(e).Params? ==> Derive(e).f == Vec3r(s, 0.0, 0.0))
      && (e.count > 0 && s == 0.0 ==> ProcessAsWritten(e, position, rnd) == [ShortPacket(e, position, [])])
  {
  }

  /** The default colour of a colourable type is never sent: one short packet. */
  lemma DefaultColorSingle(e: Effect, position: Vec3r, rnd: nat -> Vec3r)
    requires e.capability == Colored(e.ptype.defaultColor) && e.count > 0
    ensures ProcessAsWritten(e, position, rnd) == [ShortPacket(e, position, [])]
  {
  }

  /**
   * Only the full colour, alpha included, is compared with the default: a
   * colour with the default's red, green and blue but another alpha still
   * sends those channels as parameters.
   */
  lemma AlphaAloneIsSent(e: Effect)
    requires e.capability.Colored?
    requires var c := e.capability.color; var d := e.ptype.defaultColor;
      c.red == d.red && c.green == d.green && c.blue == d.blue && c.alpha != d.alpha
    ensures Derive(e).Params?
    ensures Derive(e).f.y == Channel(e.ptype.defaultColor.green) && Derive(e).f.z == Channel(e.ptype.defaultColor.blue)
  {
  }

  /** The colour parameters are the channels / 255, with red 0 on redstone lifted to 0.00001. */
  lemma ColorParams(e: Effect)
    requires e.capability.Colored? && e.capability.color != e.ptype.defaultColor
    ensures Derive(e).Params?
    ensures Derive(e).f.y == Channel(e.capability.color.green) && Derive(e).f.z == Channel(e.capability.color.blue)
    ensures e.capability.color.red == 0 && e.ptype.kind.Redstone? ==> Derive(e).f.x == 0.00001
    ensures !(e.capability.color.red == 0 && e.ptype.kind.Redstone?) ==> Derive(e).f.x == Channel(e.capability.color.red)
  {
  }

  /** A note with internal id n > 0 sends n / 24; note 0 is one short packet. */
  lemma NoteParams(e: Effect)
    requires e.capability.NoteCap?
    ensures e.capability.noteId == 0 <==> Derive(e).Short?
    ensures e.capability.noteId != 0 ==> Derive(e).f == Vec3r((e.capability.noteId as real) / 24.0, 0.0, 0.0)
  {
  }

  /**
   * A particle with motion other than a water splash, and no other
   * capability, sends its motion as (f0, f1, f2): one short packet exactly
   * when the motion is zero.
   */
  lemma MotionParams(e: Effect)
    requires e.ptype.hasMotion && !e.ptype.kind.WaterSplash?
    requires e.capability.Plain? || e.capability.ItemCap?
    ensures Derive(e).Short? <==> e.motion == ZERO
    ensures Derive(e).Params? ==> Derive(e).f == e.motion
  {
  }

  /**
   * A particle with neither a capability nor motion leaves (f0, f1, f2) at
   * zero, so the final check sends it as one short packet.
   */
  lemma NoMotionShort(e: Effect, position: Vec3r, rnd: nat -> Vec3r)
    requires !e.ptype.hasMotion
    requires e.capability.Plain? || e.capability.ItemCap?
    ensures Derive(e) == Params(ZERO)
    ensures e.count > 0 && Extra(e).Some? ==> ProcessAsWritten(e, position, rnd) == [ShortPacket(e, position, Extra(e).value)]
  {
  }

  /** A water splash never sends vertical motion. */
  lemma WaterSplashFlat(e: Effect)
    requires e.ptype.kind.WaterSplash? && e.ptype.hasMotion
    requires e.capability.Plain? || e.capability.ItemCap?
    ensures Derive(e).Params? ==> Derive(e).f.y == 0.0
    ensures Derive(e).Short? <==> e.motion.x == 0.0 && e.motion.z == 0.0
  {
  }
}
