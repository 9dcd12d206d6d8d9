/**
 * The status-state protocol table: which opcode, message type, codec and
 * handler are registered in each direction. A registry is the list of its
 * registrations in order; lookups by opcode and by message type return the
 * first match.
 */
module ProtocolStatus {
  import opened Wrappers

  datatype MessageType = StatusInRequest | StatusInOutPing | StatusOutResponse
  datatype Codec = CodecStatusInRequest | CodecStatusInOutPing | CodecStatusOutResponse
  datatype Handler = HandlerStatusRequest | HandlerStatusPing

  datatype Registration = Registration(opcode: int, message: MessageType, codec: Codec, handler: Option<Handler>)

  type Registry = seq<Registration>

  /** `register(...)`: append one registration. */
  function Register(reg: Registry, opcode: int, message: MessageType, codec: Codec, handler: Option<Handler>): (r: Registry)
    ensures |r| == |reg| + 1 && r[..|reg|] == reg
    ensures r[|reg|] == Registration(opcode, message, codec, handler)
  {
    reg + [Registration(opcode, message, codec, handler)]
  }

  /** The first registration with this opcode. */
  function ByOpcode(reg: Registry, opcode: int): (r: Option<Registration>)
    ensures r.Some? ==> r.value in reg && r.value.opcode == opcode
    ensures r.None? <==> forall i :: 0 <= i < |reg| ==> reg[i].opcode != opcode
  {
    if |reg| == 0 then None
    else if reg[0].opcode == opcode then Some(reg[0])
    else ByOpcode(reg[1..], opcode)
  }

  /** The first registration with this message type. */
  function ByType(reg: Registry, message: MessageType): (r: Option<Registration>)
    ensures r.Some? ==> r.value in reg && r.value.message == message
    ensures r.None? <==> forall i :: 0 <= i < |reg| ==> reg[i].message != message
  {
    if |reg| == 0 then None
    else if reg[0].message == message then Some(reg[0])
    else ByType(reg[1..], message)
  }

  /** Opcodes are pairwise distinct and so are message types. */
  predicate Bijective(reg: Registry) {
    forall i, j :: 0 <= i < j < |reg| ==> reg[i].opcode != reg[j].opcode && reg[i].message != reg[j].message
  }

  /** In a bijective registry, the lookups by opcode and by type are mutually inverse. */
  lemma {:induction false} LookupsInverse(reg: Registry, x: Registration)
    requires Bijective(reg) && x in reg
    ensures ByOpcode(reg, x.opcode) == Some(x)
    ensures ByType(reg, x.message) == Some(x)
  {
    if reg[0] != x {
      assert Bijective(reg[1..]) by {
        forall i, j | 0 <= i < j < |reg[1..]|
          ensures reg[1..][i].opcode != reg[1..][j].opcode && reg[1..][i].message != reg[1..][j].message
        {
          assert reg[1..][i] == reg[i + 1] && reg[1..][j] == reg[j + 1];
        }
      }
      var k :| 0 <= k < |reg| && reg[k] == x;
      assert k > 0;
      assert reg[0].opcode != x.opcode && reg[0].message != x.message;
      assert x == reg[1..][k - 1];
      LookupsInverse(reg[1..], x);
    }
  }

  /**
   * The constructor's inbound table: 0x00 is the status request with the
   * request handler, 0x01 is ping with the ping handler, nothing else is
   * registered, and opcode and message type determine each other.
   */
  function Inbound(): (r: Registry)
    ensures ByOpcode(r, 0x00) == Some(Registration(0x00, StatusInRequest, CodecStatusInRequest, Some(HandlerStatusRequest)))
    ensures ByOpcode(r, 0x01) == Some(Registration(0x01, StatusInOutPing, CodecStatusInOutPing, Some(HandlerStatusPing)))
    ensures forall op :: op != 0x00 && op != 0x01 ==> ByOpcode(r, op).None?
    ensures ByType(r, StatusOutResponse).None?
    ensures Bijective(r)
  {
    var reg := Register([], 0x00, StatusInRequest, CodecStatusInRequest, Some(HandlerStatusRequest));
    Register(reg, 0x01, StatusInOutPing, CodecStatusInOutPing, Some(HandlerStatusPing))
  }

  /**
   * The constructor's outbound table: 0x00 is the status response, 0x01 is
   * ping, neither has a handler, and opcode and message type determine each
   * other.
   */
  function Outbound(): (r: Registry)
    ensures ByOpcode(r, 0x00) == Some(Registration(0x00, StatusOutResponse, CodecStatusOutResponse, None))
    ensures ByOpcode(r, 0x01) == Some(Registration(0x01, StatusInOutPing, CodecStatusInOutPing, None))
    ensures forall op :: op != 0x00 && op != 0x01 ==> ByOpcode(r, op).None?
    ensures ByType(r, StatusInRequest).None?
    ensures Bijective(r)
  {
    var reg := Register([], 0x00, StatusOutResponse, CodecStatusOutResponse, None);
    Register(reg, 0x01, StatusInOutPing, CodecStatusInOutPing, None)
  }

  /** Ping is registered with the same message type and codec in both directions. */
  lemma PingSymmetric()
    ensures ByType(Inbound(), StatusInOutPing).Some? && ByType(Outbound(), StatusInOutPing).Some?
    ensures ByType(Inbound(), StatusInOutPing).value.codec == ByType(Outbound(), StatusInOutPing).value.codec
    ensures ByType(Inbound(), StatusInOutPing).value.opcode == ByType(Outbound(), StatusInOutPing).value.opcode
  {
    LookupsInverse(Inbound(), Registration(0x01, StatusInOutPing, CodecStatusInOutPing, Some(HandlerStatusPing)));
    LookupsInverse(Outbound(), Registration(0x01, StatusInOutPing, CodecStatusInOutPing, None));
  }
}
