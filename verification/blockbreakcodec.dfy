/** `CodecPlayOutBlockBreakAnimation`: the block-break progress packet. */
module BlockBreakCodec {
  import opened Wrappers
  import opened Bytes
  import opened VarNum
  import opened Geometry

  /** The outbound message: breaker id, block position and crack stage. */
  datatype BlockBreakAnimation = BlockBreakAnimation(id: int, position: Vec3, state: int)

  /**
   * The crack stage as sent: stages 0..9 pass through, anything else
   * (the "no animation" stages) becomes 10, so it always fits in a byte.
   */
  function StateByte(state: int): (b: byte)
    ensures 0 <= b <= 10
    ensures 0 <= state <= 9 ==> b == state
    ensures !(0 <= state <= 9) ==> b == 10
  {
    if 0 <= state <= 9 then state else 10
  }

  /**
   * The bytes `encode` writes into its buffer: VarInt id, the position as
   * the codec context's `Vector3i` writer lays it out (`writePosition`),
   * then the stage byte.
   */
  function Filled(m: BlockBreakAnimation, writePosition: Vec3 -> seq<byte>): (r: seq<byte>)
    requires Int32.Contains(m.id)
    ensures Read(Int32, r) == Ok(Decoded(m.id, writePosition(m.position) + [StateByte(m.state)]))
    ensures r[|r| - 1] == StateByte(m.state)
  {
    var tail := writePosition(m.position) + [StateByte(m.state)];
    RoundTrip(Int32, m.id, tail);
    Write(Int32, m.id) + tail
  }

  /** `encode` as the source has it: the filled buffer is dropped and `null` returned. */
  function EncodeAsWritten(m: BlockBreakAnimation, writePosition: Vec3 -> seq<byte>): (r: Option<seq<byte>>)
    requires Int32.Contains(m.id)
  {
    var _ := Filled(m, writePosition);
    None
  }

  /** Every message is lost: the caller receives `null` although a packet was built. */
  lemma EncodeAsWrittenReturnsNull(m: BlockBreakAnimation, writePosition: Vec3 -> seq<byte>)
    requires Int32.Contains(m.id)
    ensures EncodeAsWritten(m, writePosition) == None
    ensures |Filled(m, writePosition)| >= 2
  {
  }

  /** `encode` as intended: the filled buffer is the result. */
  function Encode(m: BlockBreakAnimation, writePosition: Vec3 -> seq<byte>): (r: Option<seq<byte>>)
    requires Int32.Contains(m.id)
    ensures r.Some?
    ensures Read(Int32, r.value) == Ok(Decoded(m.id, writePosition(m.position) + [StateByte(m.state)]))
  {
    Some(Filled(m, writePosition))
  }

  /** `decode`: the packet is outbound only, so decoding always fails. */
  function Decode(buf: seq<byte>): (r: Result<BlockBreakAnimation, CodecError>)
    ensures r.Err?
  {
    Err(Unsupported)
  }
}
