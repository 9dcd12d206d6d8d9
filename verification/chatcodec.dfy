/**
 * `CodecPlayOutChatMessage`: a chat packet is the serialized text followed
 * by one byte naming where the client shows it. Text serialization and the
 * legacy-format rewrite are the codec context's and are taken as parameters.
 */
module ChatCodec {
  import opened Wrappers
  import opened Bytes
  import opened VarNum

  /** The chat types of the API; `Custom` is any other registered type. */
  datatype ChatType = Chat | System | ActionBar | Custom(name: string)

  datatype ChatMessage<Text> = ChatMessage(message: Text, chatType: ChatType)

  /** The position byte: CHAT 0, SYSTEM 1, ACTION_BAR 2, and nothing for any other type. */
  function PositionByte(t: ChatType): (r: Option<byte>)
    ensures r.Some? <==> !t.Custom?
    ensures r.Some? ==> r.value <= 2
    ensures r == Some(0) <==> t.Chat?
    ensures r == Some(1) <==> t.System?
    ensures r == Some(2) <==> t.ActionBar?
  {
    match t
    case Chat => Some(0)
    case System => Some(1)
    case ActionBar => Some(2)
    case Custom(_) => None
  }

  /** Distinct known chat types get distinct position bytes. */
  lemma PositionByteInjective(t: ChatType, u: ChatType)
    requires PositionByte(t).Some? && PositionByte(t) == PositionByte(u)
    ensures t == u
  {
  }

  /**
   * `encode` as the source has it: for an action bar the text is rewritten
   * through the legacy format, but the ORIGINAL message is what is written.
   */
  function EncodeAsWritten<Text>(m: ChatMessage<Text>, writeText: Text -> seq<byte>, legacy: Text -> Text)
    : (r: Result<seq<byte>, CodecError>)
    ensures m.chatType.Custom? <==> r.Err?
    ensures r.Err? ==> r.error == Rejected("Unknown chat type: " + m.chatType.name)
    ensures r.Ok? ==> r.value == writeText(m.message) + [PositionByte(m.chatType).value]
  {
    match m.chatType
    case Chat => Ok(writeText(m.message) + [0])
    case System => Ok(writeText(m.message) + [1])
    case ActionBar =>
      var text := legacy(m.message);
      Ok(writeText(m.message) + [2])
    case Custom(name) => Err(Rejected("Unknown chat type: " + name))
  }

  /** `encode` as intended: the rewritten text is the one sent for an action bar. */
  function Encode<Text>(m: ChatMessage<Text>, writeText: Text -> seq<byte>, legacy: Text -> Text)
    : (r: Result<seq<byte>, CodecError>)
    ensures m.chatType.Custom? <==> r.Err?
    ensures r.Ok? ==> |r.value| == |writeText(SentText(m, legacy))| + 1
    ensures r.Ok? ==> r.value[..|r.value| - 1] == writeText(SentText(m, legacy))
    ensures r.Ok? ==> r.value[|r.value| - 1] == PositionByte(m.chatType).value
  {
    match m.chatType
    case Chat => Ok(writeText(m.message) + [0])
    case System => Ok(writeText(m.message) + [1])
    case ActionBar => Ok(writeText(legacy(m.message)) + [2])
    case Custom(name) => Err(Rejected("Unknown chat type: " + name))
  }

  /** The text a client should see: the legacy rewrite for the action bar, else the message. */
  function SentText<Text>(m: ChatMessage<Text>, legacy: Text -> Text): Text {
    if m.chatType.ActionBar? then legacy(m.message) else m.message
  }

  /**
   * The two encoders agree except on action-bar messages whose rewrite
   * serializes differently, where the source sends the unrewritten text.
   */
  lemma ActionBarRewriteDiscarded<Text>(m: ChatMessage<Text>, writeText: Text -> seq<byte>, legacy: Text -> Text)
    ensures EncodeAsWritten(m, writeText, legacy) != Encode(m, writeText, legacy)
        <==> m.chatType.ActionBar? && writeText(legacy(m.message)) != writeText(m.message)
  {
    if m.chatType.ActionBar? {
      var a := writeText(m.message) + [2];
      var b := writeText(legacy(m.message)) + [2];
      if a == b {
        assert a[..|a| - 1] == writeText(m.message);
        assert b[..|b| - 1] == writeText(legacy(m.message));
      }
    }
  }

  /** `decode`: outbound only, always fails. */
  function Decode<Text>(buf: seq<byte>): (r: Result<ChatMessage<Text>, CodecError>)
    ensures r.Err?
  {
    Err(Unsupported)
  }
}
