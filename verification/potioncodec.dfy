/** `CodecPlayOutAddPotionEffect`: the "entity effect" packet of the play phase. */
module PotionCodec {
  import opened Wrappers
  import opened Bytes
  import opened VarNum

  /** The outbound message; `typeId` is the effect type's internal id. */
  datatype AddPotionEffect = AddPotionEffect(
    entityId: int, typeId: int, amplifier: int, duration: int,
    ambient: bool, showParticles: bool)
  {
    predicate Valid() {
      Int32.Contains(entityId) && Int32.Contains(typeId) && Int32.Contains(amplifier) && Int32.Contains(duration)
    }
  }

  /** The flags byte: 0x1 for ambient, 0x2 for show-particles, nothing else. */
  function Flags(ambient: bool, showParticles: bool): (f: byte)
    ensures f < 4
    ensures f % 2 == 1 <==> ambient
    ensures f / 2 == 1 <==> showParticles
  {
    (if ambient then 1 else 0) + (if showParticles then 2 else 0)
  }

  /** `encode`. */
  function Encode(m: AddPotionEffect): (r: seq<byte>)
    requires m.Valid()
    ensures |r| == |Write(Int32, m.entityId)| + 2 + |Write(Int32, m.duration)| + 1
    ensures 4 <= |r| <= 13
  {
    Write(Int32, m.entityId) + [LowByte(m.typeId), LowByte(m.amplifier)]
      + Write(Int32, m.duration) + [Flags(m.ambient, m.showParticles)]
  }

  /** What a client reads back from the packet. */
  datatype PotionWire = PotionWire(
    entityId: int, typeByte: byte, amplifierByte: byte, duration: int,
    ambient: bool, showParticles: bool)

  /** A client-side reader of the packet, independent of `Encode`. */
  function Parse(buf: seq<byte>): Result<Decoded<PotionWire>, CodecError> {
    var id :- Read(Int32, buf);
    if |id.rest| < 2 then Err(EndOfBuffer)
    else
      var dur :- Read(Int32, id.rest[2..]);
      if |dur.rest| < 1 then Err(EndOfBuffer)
      else
        var flags := dur.rest[0];
        Ok(Decoded(PotionWire(id.value, id.rest[0], id.rest[1], dur.value, flags % 2 == 1, (flags / 2) % 2 == 1),
                   dur.rest[1..]))
  }

  /** `Parse` consumes the id, two raw bytes, the duration and the flags byte, in that order. */
  lemma ParseLayout(idBytes: seq<byte>, t0: byte, t1: byte, durBytes: seq<byte>, f: byte, rest: seq<byte>,
                    id: int, dur: int)
    requires Read(Int32, idBytes + ([t0, t1] + (durBytes + ([f] + rest))))
          == Ok(Decoded(id, [t0, t1] + (durBytes + ([f] + rest))))
    requires Read(Int32, durBytes + ([f] + rest)) == Ok(Decoded(dur, [f] + rest))
    ensures Parse(idBytes + ([t0, t1] + (durBytes + ([f] + rest))))
         == Ok(Decoded(PotionWire(id, t0, t1, dur, f % 2 == 1, (f / 2) % 2 == 1), rest))
  {
    assert ([t0, t1] + (durBytes + ([f] + rest)))[2..] == durBytes + ([f] + rest);
    assert ([f] + rest)[1..] == rest;
  }

  lemma EncodeLayout(m: AddPotionEffect, rest: seq<byte>)
    requires m.Valid()
    ensures Encode(m) + rest
         == Write(Int32, m.entityId) + ([LowByte(m.typeId), LowByte(m.amplifier)]
              + (Write(Int32, m.duration) + ([Flags(m.ambient, m.showParticles)] + rest)))
  {
  }

  /** The flags byte decodes back to the two booleans it was built from. */
  lemma FlagsDecode(ambient: bool, showParticles: bool)
    ensures (Flags(ambient, showParticles) % 2 == 1) == ambient
    ensures ((Flags(ambient, showParticles) / 2) % 2 == 1) == showParticles
  { }

  /**
   * Reading an encoded packet recovers the entity id, duration and both
   * flags exactly, and the type id and amplifier truncated to their low
   * eight bits; nothing past the packet is consumed.
   */
  lemma EncodeParse(m: AddPotionEffect, rest: seq<byte>)
    requires m.Valid()
    ensures Parse(Encode(m) + rest)
         == Ok(Decoded(PotionWire(m.entityId, LowByte(m.typeId), LowByte(m.amplifier), m.duration,
                                  m.ambient, m.showParticles), rest))
  {
    var idBytes, durBytes := Write(Int32, m.entityId), Write(Int32, m.duration);
    var t0, t1, f := LowByte(m.typeId), LowByte(m.amplifier), Flags(m.ambient, m.showParticles);
    EncodeLayout(m, rest);
    RoundTrip(Int32, m.entityId, [t0, t1] + (durBytes + ([f] + rest)));
    RoundTrip(Int32, m.duration, [f] + rest);
    ParseLayout(idBytes, t0, t1, durBytes, f, rest, m.entityId, m.duration);
    FlagsDecode(m.ambient, m.showParticles);
  }
}
