# LanternServer core, modelled in Dafny

This project models the sequential logic at the core of the LanternServer
Minecraft server:

- **Network layer.**
  - The VarLong and VarInt wire numbers, in unsigned LEB128 form (section 7.6 of DWARF version 4).
  - The length-prefixed string serializer.
  - The add-potion-effect, block-break-animation and chat encoders.
  - The Forge "FML|HS" registry-data fan-out.
  - The particle-effect processor, which turns one effect into zero, one or `count` spawn packets.
  - The status protocol's registration table.
- **Volume windowing.**
  - The dense block buffer: its bounds, containment test and linear index.
  - Block and biome views that narrow a volume to a sub-box (downsize views).
  - Views that show a volume through a discrete transform.
  - Read-only wrappers.
- **Small services.**
  - Chat page splitting.
  - The first-hit translation lookup over an ordered list of managers.
  - The scheduler's task builder.
  - Single-parent permission data and the op-level group hierarchy.
  - Scoreboard bookkeeping, including the messages it broadcasts.
  - A player's inventory session: cursor, open container, drag ("painting") state machine, and the outcome of inventory events.

Everything is written as immutable datatypes and pure functions. The
source's mutable objects become a function that returns the updated value:
the task builder, subject data, scoreboard and container session. Errors
the source throws are `Result.Err` values, and each carries the source's
message. Wire numbers and the asynchronous tick conversion wrap to 32 or
64 bits explicitly (`Bytes.Wrap`, `Bytes.Signed`); the other `int`
arithmetic is unbounded, as "## Left out" lists. Three kinds of collaborator
become function parameters:

- code that is not part of this model (the `Vector3i` and `Text` writers, the legacy text rewrite, translation managers, the scheduler's name generator);
- randomness (the particle jitter);
- outcomes decided elsewhere (event cancellation, slot offer transactions).

Modules, one per file: `Wrappers`, `Bytes`, `VarNum`, `StringCodec`,
`PotionCodec`, `BlockBreakCodec`, `ChatCodec`, `RegistryData`, `Particles`,
`ProtocolStatus`, `Geometry`, `BlockBuffer`, `VolumeViews`, `BlockViews`,
`BiomeVolumeViews`, `BiomeAreaViews`, `Pagination`, `Translation`,
`TaskBuilder`, `Permissions`, `Scoreboard`, `ContainerSession`.

Source paths below are relative to the repository root.

## Model

| member | source | states |
|---|---|---|
| VarNum.WriteVarLong | src/main/java/org/lanternpowered/server/network/message/codec/object/serializer/SerializerVarLong.java:35-42 | The write loop emits exactly the 7-bit groups of the value's unsigned 64-bit pattern (what `>>>` shifts), least significant first. |
| VarNum.GroupsContinuation | src/main/java/org/lanternpowered/server/network/message/codec/object/serializer/SerializerVarLong.java:37-41 | Every emitted byte except the last has 0x80 set, and the last byte is below 0x80. |
| VarNum.Write | src/main/java/org/lanternpowered/server/network/message/codec/object/serializer/SerializerVarLong.java:35-42 | An encoding is 1 to 10 bytes long. It is exactly 10 bytes iff the long is negative. A value in [0,128) is the single byte equal to it. The groups add up to the unsigned value. |
| VarNum.GroupsLength | src/main/java/org/lanternpowered/server/network/message/codec/object/serializer/SerializerVarLong.java:37-41 | The encoding fits in n bytes iff the unsigned value is below 128^n. |
| VarNum.RoundTrip | src/main/java/org/lanternpowered/server/network/message/codec/object/serializer/SerializerVarLong.java:35-57 | Reading what was written returns the original value and leaves exactly the bytes that followed. |
| VarNum.ReadIgnoresTail | src/main/java/org/lanternpowered/server/network/message/codec/object/serializer/SerializerVarLong.java:49-56 | Reading stops at the first byte whose high bit is clear. Bytes after it never change the result, and at least one byte is consumed. |
| VarNum.ReadTooLong | src/main/java/org/lanternpowered/server/network/message/codec/object/serializer/SerializerVarLong.java:49-55 | Reading fails with "Variable length is too long!" iff the first ten bytes all carry the continuation bit. |
| StringCodec.WriteString | src/main/java/org/lanternpowered/server/network/message/codec/object/serializer/SerializerString.java:35-39 | A string is written as a VarInt holding its UTF-8 byte count, followed by exactly those bytes. |
| StringCodec.ReadString | src/main/java/org/lanternpowered/server/network/message/codec/object/serializer/SerializerString.java:42-47 | On success, the length prefix equals the string's byte length and the string's bytes come next. A negative length fails at array allocation. A length beyond the remaining bytes fails in `readBytes`. A bad prefix fails with the prefix's error. No partial string is ever returned. A non-negative length that fits the remaining bytes always succeeds, whatever padding the prefix has. |
| StringCodec.PaddedEmptyString | src/main/java/org/lanternpowered/server/network/message/codec/object/serializer/SerializerString.java:42-47 | The reader also accepts a non-canonical length prefix: `[0x80, 0x00]` reads as the empty string, followed by exactly the rest of the buffer. |
| StringCodec.ReadLengthBound | src/main/java/org/lanternpowered/server/network/message/codec/object/serializer/SerializerString.java:43-44 | A decoded VarInt length never exceeds the largest Java array length. |
| StringCodec.StringRoundTrip | src/main/java/org/lanternpowered/server/network/message/codec/object/serializer/SerializerString.java:35-47 | Reading a written string returns it, followed by exactly the bytes after it. |
| PotionCodec.Flags | src/main/java/org/lanternpowered/server/network/vanilla/message/codec/play/CodecPlayOutAddPotionEffect.java:44-50 | Bit 0x1 is set iff the effect is ambient, and bit 0x2 iff particles are shown. No other bit is ever set. |
| PotionCodec.Encode | src/main/java/org/lanternpowered/server/network/vanilla/message/codec/play/CodecPlayOutAddPotionEffect.java:38-53 | The packet length is the VarInt entity id, plus 2, plus the VarInt duration, plus 1. That is between 4 and 13 bytes. |
| PotionCodec.EncodeParse | src/main/java/org/lanternpowered/server/network/vanilla/message/codec/play/CodecPlayOutAddPotionEffect.java:40-51 | An independent reader of the packet recovers everything in order. The entity id, duration and both flags come back exactly. The type id and amplifier come back truncated to their low 8 bits. Nothing past the packet is consumed. |
| BlockBreakCodec.StateByte | src/main/java/org/lanternpowered/server/network/vanilla/message/codec/play/CodecPlayOutBlockBreakAnimation.java:46-47 | The state byte is the state when it is in 0..9 and 10 otherwise, so it always lies in [0,10]. |
| BlockBreakCodec.Filled | src/main/java/org/lanternpowered/server/network/vanilla/message/codec/play/CodecPlayOutBlockBreakAnimation.java:42-47 | The buffer the encoder fills reads back as the VarInt id, then the position bytes, then the state byte last. |
| BlockBreakCodec.EncodeAsWrittenReturnsNull | src/main/java/org/lanternpowered/server/network/vanilla/message/codec/play/CodecPlayOutBlockBreakAnimation.java:41-48 | `encode` as written returns null for every message, although it filled a buffer of at least two bytes. |
| BlockBreakCodec.Encode | src/main/java/org/lanternpowered/server/network/vanilla/message/codec/play/CodecPlayOutBlockBreakAnimation.java:41-48 | The corrected encoder always returns the filled buffer: the id, then the position, then the state byte. |
| BlockBreakCodec.Decode | src/main/java/org/lanternpowered/server/network/vanilla/message/codec/play/CodecPlayOutBlockBreakAnimation.java:51-54 | Decoding always fails. |
| ChatCodec.PositionByte | src/main/java/org/lanternpowered/server/network/vanilla/message/codec/play/CodecPlayOutChatMessage.java:49-60 | CHAT maps to 0, SYSTEM to 1 and ACTION_BAR to 2. Any other chat type has no byte. |
| ChatCodec.PositionByteInjective | src/main/java/org/lanternpowered/server/network/vanilla/message/codec/play/CodecPlayOutChatMessage.java:50-57 | Distinct known chat types get distinct bytes. |
| ChatCodec.EncodeAsWritten | src/main/java/org/lanternpowered/server/network/vanilla/message/codec/play/CodecPlayOutChatMessage.java:45-64 | An unknown type fails with "Unknown chat type: " plus its name. Otherwise the output is the original message's serialization followed by exactly one type byte. |
| ChatCodec.Encode | src/main/java/org/lanternpowered/server/network/vanilla/message/codec/play/CodecPlayOutChatMessage.java:45-64 | In the corrected encoder, the text written is the rewritten text for the action bar and the message otherwise. It is followed by exactly one type byte. It fails exactly for unknown types. |
| ChatCodec.ActionBarRewriteDiscarded | src/main/java/org/lanternpowered/server/network/vanilla/message/codec/play/CodecPlayOutChatMessage.java:54-61 | The written and corrected encoders differ exactly on action-bar messages whose rewrite serializes differently. |
| ChatCodec.Decode | src/main/java/org/lanternpowered/server/network/vanilla/message/codec/play/CodecPlayOutChatMessage.java:66-69 | Decoding always fails. |
| RegistryData.Process | src/main/java/org/lanternpowered/server/network/forge/message/processor/ProcessorHandshakeOutRegistryData.java:21-44 | An empty entry list fails with "There must be at least one entry present!" and produces nothing. Otherwise there is exactly one "FML\|HS" payload per entry. |
| RegistryData.Payloads | src/main/java/org/lanternpowered/server/network/forge/message/processor/ProcessorHandshakeOutRegistryData.java:26-43 | The loop produces one payload per entry, each on the "FML\|HS" channel. |
| RegistryData.ProcessPayloads | src/main/java/org/lanternpowered/server/network/forge/message/processor/ProcessorHandshakeOutRegistryData.java:26-43 | Payload i reads back in entry order. It holds the discriminator byte, then "more follows" (true on all but the last), then entry i's ids and substitutions. |
| RegistryData.BodyRoundTrip | src/main/java/org/lanternpowered/server/network/forge/message/processor/ProcessorHandshakeOutRegistryData.java:31-41 | A payload body is the id count, the (name, id) pairs, the substitution count and the substitutions. It reads back as the entry. |
| RegistryData.IdPairsRoundTrip | src/main/java/org/lanternpowered/server/network/forge/message/processor/ProcessorHandshakeOutRegistryData.java:33-36 | The string-and-VarInt pairs read back as the id list. |
| RegistryData.StringsRoundTrip | src/main/java/org/lanternpowered/server/network/forge/message/processor/ProcessorHandshakeOutRegistryData.java:39-41 | The substitution strings read back as the list. |
| Particles.Extra | src/main/java/org/lanternpowered/server/network/vanilla/message/processor/play/ProcessorPlayOutParticleEffect.java:84-103 | Non-item effects carry no extra data. An item crack carries the item id and is dropped when the id is 0. Block crack and dust carry `0 << 12 \| blockId`, and are dropped when there is no block or the value is 0. |
| Particles.Derive | src/main/java/org/lanternpowered/server/network/vanilla/message/processor/play/ProcessorPlayOutParticleEffect.java:105-169 | The sent parameters are all zero only for a colour, or for a particle with neither capability nor motion. A size, note or motion that reaches the parameters is never all zero. |
| Particles.ProcessAsWritten | src/main/java/org/lanternpowered/server/network/vanilla/message/processor/play/ProcessorPlayOutParticleEffect.java:61-202 | `count <= 0` or dropped extra data gives no output. Otherwise the output is one packet or `count` packets, each led by the count and carrying the extra data. |
| Particles.ProcessShape | src/main/java/org/lanternpowered/server/network/vanilla/message/processor/play/ProcessorPlayOutParticleEffect.java:170-200 | With no derived parameters, or all of them zero, the output is one short packet repeated `count` times. Otherwise it is `count` packets with data 1 and repeat 0. With a non-zero offset, each of these carries (f0, f1, f2) in the offset slot, at the position jittered by its own random triple. With a zero offset, each sits at the position. |
| Particles.AgreesWithOffset | src/main/java/org/lanternpowered/server/network/vanilla/message/processor/play/ProcessorPlayOutParticleEffect.java:170-200 | With a non-zero offset, the source's processor and the corrected one send the same packets. |
| Particles.ZeroOffsetDropsParams | src/main/java/org/lanternpowered/server/network/vanilla/message/processor/play/ProcessorPlayOutParticleEffect.java:177-180 | With a zero offset and nonzero parameters, every written packet carries a zero offset slot. The corrected processor carries (f0, f1, f2) there. |
| Particles.Process | src/main/java/org/lanternpowered/server/network/vanilla/message/processor/play/ProcessorPlayOutParticleEffect.java:171-201 | The corrected processor has the same shape. Whenever the parameters are nonzero, every one of its `count` packets carries (f0, f1, f2) in the offset slot. |
| Particles.RedstoneColorLost | src/main/java/org/lanternpowered/server/network/vanilla/message/processor/play/ProcessorPlayOutParticleEffect.java:131-180 | A blue redstone dust with no offset gets red 0.00001, and the written processor sends it with a zero offset slot. |
| Particles.LargeExplosionSizeOne | src/main/java/org/lanternpowered/server/network/vanilla/message/processor/play/ProcessorPlayOutParticleEffect.java:105-119 | A large explosion of size 1 becomes server size 0 and is sent as exactly one packet. |
| Particles.ResizableParams | src/main/java/org/lanternpowered/server/network/vanilla/message/processor/play/ProcessorPlayOutParticleEffect.java:105-121 | The size sent is `2 - 2*size` for a large explosion and `size` for any other resizable type. It is one short packet iff that is 0, and otherwise the first parameter, with the other two 0. |
| Particles.DefaultColorSingle | src/main/java/org/lanternpowered/server/network/vanilla/message/processor/play/ProcessorPlayOutParticleEffect.java:122-129 | A coloured particle in its type's default colour is sent as exactly one packet. |
| Particles.ColorParams | src/main/java/org/lanternpowered/server/network/vanilla/message/processor/play/ProcessorPlayOutParticleEffect.java:122-138 | Any other colour gives f = RGB/255. A red channel of 0 on redstone becomes 0.00001. |
| Particles.AlphaAloneIsSent | src/main/java/org/lanternpowered/server/network/vanilla/message/processor/play/ProcessorPlayOutParticleEffect.java:122-133 | The default-colour test compares alpha too. A colour that differs from the default only in alpha still sends its channels as parameters. |
| Particles.NoteParams | src/main/java/org/lanternpowered/server/network/vanilla/message/processor/play/ProcessorPlayOutParticleEffect.java:139-148 | Note id 0 gives a single packet. Any other note gives f0 = id/24. |
| Particles.WaterSplashFlat | src/main/java/org/lanternpowered/server/network/vanilla/message/processor/play/ProcessorPlayOutParticleEffect.java:149-169 | Water splash motion has Y forced to 0. It is a single packet exactly when X and Z motion are zero. |
| Particles.MotionParams | src/main/java/org/lanternpowered/server/network/vanilla/message/processor/play/ProcessorPlayOutParticleEffect.java:149-169 | A particle with motion, other than a water splash, sends its motion as (f0, f1, f2). It is one short packet iff the motion is zero. |
| Particles.NoMotionShort | src/main/java/org/lanternpowered/server/network/vanilla/message/processor/play/ProcessorPlayOutParticleEffect.java:170-175 | A particle with neither capability nor motion keeps (f0, f1, f2) at zero and is sent as one short packet. |
| ProtocolStatus.LookupsInverse | src/main/java/org/lanternpowered/server/network/protocol/ProtocolStatus.java:43-47 | In a table with distinct opcodes and distinct message types, looking a registration up by opcode or by type finds that registration. |
| ProtocolStatus.Inbound | src/main/java/org/lanternpowered/server/network/protocol/ProtocolStatus.java:43-44 | Inbound 0x00 is the status request with its handler, and 0x01 is ping with the ping handler. No other opcode is registered, and the response type is not inbound. The table is a bijection. |
| ProtocolStatus.Outbound | src/main/java/org/lanternpowered/server/network/protocol/ProtocolStatus.java:46-47 | Outbound 0x00 is the status response and 0x01 is ping, both without handlers. No other opcode is registered, and the request type is not outbound. The table is a bijection. |
| ProtocolStatus.PingSymmetric | src/main/java/org/lanternpowered/server/network/protocol/ProtocolStatus.java:44-47 | Ping uses the same opcode and codec in both directions. |
| BlockBuffer.New | src/main/java/org/lanternpowered/server/util/gen/AbstractBlockBuffer.java:52-59 | The buffer keeps start and size, and `end = start + size - (1,1,1)`, so a point is inside iff it lies in the half-open box [start, start+size). |
| BlockBuffer.CheckRange | src/main/java/org/lanternpowered/server/util/gen/AbstractBlockBuffer.java:61-65 | `checkRange` fails exactly when `containsBlock` is false (the inclusive box [start, end]). The error carries the position, min and max. |
| BlockBuffer.IndexOfStart | src/main/java/org/lanternpowered/server/util/gen/AbstractBlockBuffer.java:72 | The start corner has index 0. |
| BlockBuffer.IndexInverse | src/main/java/org/lanternpowered/server/util/gen/AbstractBlockBuffer.java:67-73 | The corrected index of every contained position is below size.x*size.y*size.z, and decoding it returns the position. |
| BlockBuffer.IndexInjective | src/main/java/org/lanternpowered/server/util/gen/AbstractBlockBuffer.java:67-73 | Two contained positions share a corrected index iff they are equal. |
| BlockBuffer.AsWrittenAgreesWhenSquare | src/main/java/org/lanternpowered/server/util/gen/AbstractBlockBuffer.java:57-72 | The written index equals the corrected one whenever size.x == size.y. |
| BlockBuffer.AsWrittenDiffersWhenNotSquare | src/main/java/org/lanternpowered/server/util/gen/AbstractBlockBuffer.java:57-72 | With size.x != size.y and a box at least two deep in z, the block one step along z from the start gets written index size.y instead of size.x. |
| BlockBuffer.AsWrittenCollides | src/main/java/org/lanternpowered/server/util/gen/AbstractBlockBuffer.java:57-72 | At size (2,1,2), the written index maps (1,0,0) and (0,0,1) to the same cell. |
| BlockBuffer.AsWrittenOutOfBounds | src/main/java/org/lanternpowered/server/util/gen/AbstractBlockBuffer.java:57-72 | At size (1,2,1), the written index of (0,1,0) is 2, which is past the end of a two-cell array. |
| BlockBuffer.GetBlock | src/main/java/org/lanternpowered/server/util/gen/AbstractBlockBuffer.java:61-73 | A read succeeds iff the position is in the buffer, and returns the cell at the position's index. |
| BlockBuffer.GetBlockType | src/main/java/org/lanternpowered/server/util/gen/AbstractBlockBuffer.java:110-113 | `getBlockType` is the type of `getBlock`, with the same failure. |
| BlockBuffer.SetBlock | src/main/java/org/lanternpowered/server/util/gen/AbstractBlockBuffer.java:61-73 | A write succeeds iff the position is in the buffer, and keeps the buffer's geometry. |
| BlockBuffer.SetThenGet | src/main/java/org/lanternpowered/server/util/gen/AbstractBlockBuffer.java:67-73 | After a write, the written position reads back the new block and every other position is unchanged. |
| VolumeViews.SubView | src/main/java/org/lanternpowered/server/world/extent/UnmodifiableBlockViewDownsize.java:38-43 | The window-of-a-window operation shared by block and biome views. It fails with the first corner outside the view, and otherwise gives a window on the backing volume with exactly the requested corners, reading like the view inside them and failing outside. |
| VolumeViews.TransformView | src/main/java/org/lanternpowered/server/world/extent/UnmodifiableBlockViewDownsize.java:45-48 | The transform operation shared by block and biome views. The result wraps the view, one level deeper, and shows at `t(q)` what the view shows at `q`. |
| BlockViews.GetBlockView | src/main/java/org/lanternpowered/server/world/extent/UnmodifiableBlockViewDownsize.java:38-43 | The view fails unless both corners are in this view's inclusive bounds, and reports the first corner that is out. The new view is a downsize of the original backing volume (never nested), with exactly the requested corners. It reads like this view inside them and fails outside. |
| BlockViews.InvertedWindowAccepted | src/main/java/org/lanternpowered/server/world/extent/UnmodifiableBlockViewDownsize.java:39-42 | Swapped corners are accepted, because newMin <= newMax is never checked. The resulting view can read nothing. |
| BlockViews.GetBlockViewTransform | src/main/java/org/lanternpowered/server/world/extent/UnmodifiableBlockViewDownsize.java:45-48 | `getBlockView(transform)` wraps this view once, and shows at T(p) what this view shows at p. |
| BlockViews.GetRelativeBlockView | src/main/java/org/lanternpowered/server/world/extent/UnmodifiableBlockViewDownsize.java:50-53 | The relative view is the translation by -min: it reads at p what this view reads at p + min, and for sorted corners its min is the origin. |
| BlockViews.GetUnmodifiableBlockView | src/main/java/org/lanternpowered/server/world/extent/UnmodifiableBlockViewDownsize.java:55-58 | The unmodifiable view has the same bounds and the same reads. |
| BlockViews.UnmodifiableIdempotent | src/main/java/org/lanternpowered/server/world/extent/UnmodifiableBlockViewDownsize.java:55-58 | Taking the unmodifiable view twice gives the same view as taking it once. |
| BiomeVolumeViews.GetBiomeView | src/main/java/org/lanternpowered/server/world/extent/ImmutableBiomeViewDownsize.java:40-45 | Both corners are checked. The result is a fresh downsize of the backing volume with exactly the requested corners, not a view of this view, and it reads like this view inside the corners. |
| BiomeVolumeViews.GetBiomeViewTransform | src/main/java/org/lanternpowered/server/world/extent/ImmutableBiomeViewDownsize.java:47-50 | `getBiomeView(transform)` wraps this view and shows at T(p) what this view shows at p. |
| BiomeVolumeViews.GetBiomeWorker | src/main/java/org/lanternpowered/server/world/extent/ImmutableBiomeViewDownsize.java:52-55 | The worker is bound to this view, so it has the same bounds and the same reads. |
| BiomeAreaViews.SetBiome | src/main/java/org/lanternpowered/server/world/extent/MutableBiomeViewTransform.java:44-47 | `setBiome(x, z)` writes the backing area at inverse(x, z) and nowhere else. Through the view, (x, z) reads the new biome and every other point is unchanged. |
| BiomeAreaViews.SetBiomeAt | src/main/java/org/lanternpowered/server/world/extent/MutableBiomeViewTransform.java:39-42 | `setBiome(position)` is the same write at the position's x and y. |
| BiomeAreaViews.GetBiomeViewTransform | src/main/java/org/lanternpowered/server/world/extent/MutableBiomeViewTransform.java:54-57 | The result is one transform view over the same backing area with the composed transform, so transforms never nest. It shows at T(p) what this view shows at p. |
| BiomeAreaViews.GetBiomeViewAsWritten | src/main/java/org/lanternpowered/server/world/extent/MutableBiomeViewTransform.java:49-52 | As written, the inner downsize gets the inverse images of the two corners, unsorted. |
| BiomeAreaViews.AsWrittenReflectionEmpty | src/main/java/org/lanternpowered/server/world/extent/MutableBiomeViewTransform.java:49-52 | Under an X reflection with newMin.x < newMax.x, the written view reads nothing. The corrected view reads newMin like the original. |
| BiomeAreaViews.AsWrittenAgreesWithoutReflection | src/main/java/org/lanternpowered/server/world/extent/MutableBiomeViewTransform.java:49-52 | For a pure translation and sorted corners, the written and corrected views coincide. |
| BiomeAreaViews.GetBiomeView | src/main/java/org/lanternpowered/server/world/extent/MutableBiomeViewTransform.java:49-52 | The corrected downsize reads like this view inside the box spanned by the two corners and fails outside it, whatever the transform. |
| BiomeAreaViews.GetRelativeBiomeView | src/main/java/org/lanternpowered/server/world/extent/MutableBiomeViewTransform.java:59-62 | It reads at p what this view reads at p + min, over the same backing area. |
| BiomeAreaViews.GetUnmodifiableBiomeView | src/main/java/org/lanternpowered/server/world/extent/MutableBiomeViewTransform.java:64-67 | The wrapper has the same bounds and reads, and every write through it is refused. |
| Pagination.BuildPages | src/main/java/org/lanternpowered/server/service/pagination/ListPagination.java:45-65 | Every page holds entries, the pages concatenate to a prefix of the input, and what is dropped has total height <= 0. With max <= 0, the result is the whole input as one page if it has lines, else nothing. With max > 0, the greedy rule holds. Each page fits. A page is closed exactly before an entry that would overflow it while it already has lines, whether that entry opens the next page or the dropped tail. No entry inside a page, or inside the dropped tail, would have closed it. The last page is kept only with lines. |
| Pagination.GreedyUnique | src/main/java/org/lanternpowered/server/service/pagination/ListPagination.java:52-63 | The contract of `BuildPages` determines the split: two page lists that both cover the entries and follow the greedy rule are equal. |
| Pagination.PositiveHeights | src/main/java/org/lanternpowered/server/service/pagination/ListPagination.java:52-63 | With positive heights, the pages concatenate to exactly the input, and every page fits max unless it holds a single entry. |
| Pagination.ZeroHeightJoinsTallEntry | src/main/java/org/lanternpowered/server/service/pagination/ListPagination.java:52-60 | With heights [0, 10] and max 5, the only split the greedy rule allows is one page of height 10. This is why `PositiveHeights` cannot take non-negative heights. |
| Pagination.GetLines | src/main/java/org/lanternpowered/server/service/pagination/ListPagination.java:67-75 | `getLines(p)` is page p-1's lines. It fails for p < 1 ("does not exist") and for p > page count ("is too high"). |
| Pagination.NavigationAgreesWithGetLines | src/main/java/org/lanternpowered/server/service/pagination/ListPagination.java:77-90 | `hasPrevious` and `hasNext` hold exactly when the neighbouring page can be fetched. The page after `getTotalPages` cannot be fetched. |
| Translation.AddManager | src/main/java/org/lanternpowered/server/text/translation/CombinedTranslationManager.java:56-58 | The manager is appended and the rest is unchanged. |
| Translation.Clamp | src/main/java/org/lanternpowered/server/text/translation/CombinedTranslationManager.java:67 | The index is clamped into [0, size]. |
| Translation.AddManagerAt | src/main/java/org/lanternpowered/server/text/translation/CombinedTranslationManager.java:66-69 | The manager is inserted at the clamped index and the others keep their order. |
| Translation.SetDelegateManager | src/main/java/org/lanternpowered/server/text/translation/CombinedTranslationManager.java:80-84 | It fails with "manager must be added before using this method" unless the manager was added. Otherwise it becomes the delegate. |
| Translation.DelegateManager | src/main/java/org/lanternpowered/server/text/translation/CombinedTranslationManager.java:86-93 | The delegate is the explicit one, else the first manager, else none. |
| Translation.FirstPresent | src/main/java/org/lanternpowered/server/text/translation/CombinedTranslationManager.java:114-124 | `getIfPresent` is the result of the first manager in list order that has the key, and empty iff none has it. |
| Translation.Get | src/main/java/org/lanternpowered/server/text/translation/CombinedTranslationManager.java:103-112 | `get` returns the first present result. Failing that, it returns the delegate's `get`, and with no manager a fixed translation of the key. |
| Translation.AddResourceBundle | src/main/java/org/lanternpowered/server/text/translation/CombinedTranslationManager.java:95-101 | A bundle goes to the delegate only, and is dropped iff there is no manager. |
| Translation.AddKeepsDelegate | src/main/java/org/lanternpowered/server/text/translation/CombinedTranslationManager.java:66-93 | An explicit delegate survives insertions. Without one, inserting at the front changes the implicit delegate, while appending to a non-empty list does not. |
| TaskBuilder.ToMillis | src/main/java/org/lanternpowered/server/scheduler/LanternTaskBuilder.java:82 | Unit conversion yields a non-negative long, and leaves milliseconds unchanged. |
| TaskBuilder.Reset | src/main/java/org/lanternpowered/server/scheduler/LanternTaskBuilder.java:57-65 | `reset` clears the name and consumer, sets synchronous, and zeroes delay and interval. It leaves both tick flags as they were. |
| TaskBuilder.New | src/main/java/org/lanternpowered/server/scheduler/LanternTaskBuilder.java:52-55 | A new builder is already reset, with both tick flags false. |
| TaskBuilder.Async | src/main/java/org/lanternpowered/server/scheduler/LanternTaskBuilder.java:67-71 | `async` makes the task asynchronous and changes nothing else. A valid builder stays valid. |
| TaskBuilder.Execute | src/main/java/org/lanternpowered/server/scheduler/LanternTaskBuilder.java:73-77 | `execute` sets the consumer and changes nothing else. A valid builder stays valid. |
| TaskBuilder.TicksToMillis | src/main/java/org/lanternpowered/server/scheduler/LanternTaskBuilder.java:131-133 | Ticks times the tick duration, as a long: the exact product when it fits, otherwise the product modulo 2^64. |
| TaskBuilder.ExecuteThenSubmit | src/main/java/org/lanternpowered/server/scheduler/LanternTaskBuilder.java:117-140 | With a plugin, a builder given a consumer submits successfully and runs that consumer. After `async`, the task is asynchronous and counts delay and interval in milliseconds. |
| TaskBuilder.Delay | src/main/java/org/lanternpowered/server/scheduler/LanternTaskBuilder.java:79-85 | A negative delay fails with "delay cannot be negative". Otherwise milliseconds are stored and the tick flag is cleared. |
| TaskBuilder.DelayTicks | src/main/java/org/lanternpowered/server/scheduler/LanternTaskBuilder.java:87-93 | A negative delay fails. Otherwise ticks are stored and the tick flag is set. A valid builder stays valid for any `long` delay. |
| TaskBuilder.Interval | src/main/java/org/lanternpowered/server/scheduler/LanternTaskBuilder.java:95-101 | A negative interval fails with "interval cannot be negative". Otherwise milliseconds are stored and the tick flag is cleared. |
| TaskBuilder.IntervalTicks | src/main/java/org/lanternpowered/server/scheduler/LanternTaskBuilder.java:103-109 | A negative interval fails. Otherwise ticks are stored and the tick flag is set. A valid builder stays valid for any `long` interval. |
| TaskBuilder.Name | src/main/java/org/lanternpowered/server/scheduler/LanternTaskBuilder.java:111-115 | A null or empty name is rejected. Any other name is stored. |
| TaskBuilder.Submit | src/main/java/org/lanternpowered/server/scheduler/LanternTaskBuilder.java:117-140 | Submit fails without a plugin, or without a consumer ("consumer not set"). An unset name becomes the generated one. An async task converts tick values to milliseconds (with long wrap-around) and clears both flags. A sync task takes the values unchanged. |
| TaskBuilder.LastSetterWins | src/main/java/org/lanternpowered/server/scheduler/LanternTaskBuilder.java:79-93 | Of `delay` and `delayTicks`, the later call decides the unit. |
| TaskBuilder.ResetKeepsTickFlags | src/main/java/org/lanternpowered/server/scheduler/LanternTaskBuilder.java:57-65 | After `delayTicks` then `reset`, the delay is 0 but still counted in ticks. |
| Permissions.LevelOf | src/main/java/org/lanternpowered/server/service/permission/OpLevelCollection.java:53-57 | Only identifiers of levels 0..4 name a level. |
| Permissions.LevelNames | src/main/java/org/lanternpowered/server/service/permission/OpLevelCollection.java:53-57 | An identifier names level i iff it is "op_" + i with 0 <= i <= 4, in both directions. |
| Permissions.HasRegistered | src/main/java/org/lanternpowered/server/service/permission/OpLevelCollection.java:69-72 | `hasRegistered(id)` holds iff id is one of "op_0" .. "op_4". |
| Permissions.Get | src/main/java/org/lanternpowered/server/service/permission/OpLevelCollection.java:60-67 | `get(id)` returns the op-level subject with that identifier. Otherwise it fails with "<id> is not a valid op level group name (op_{0,4})". |
| Permissions.OpLevelParents | src/main/java/org/lanternpowered/server/service/permission/OpLevelCollection.java:91-101 | Parents are empty outside the global context. Level 0 has only its stored parents. Level n > 0 puts the group for n-1 first. |
| Permissions.ParentChain | src/main/java/org/lanternpowered/server/service/permission/OpLevelCollection.java:96-100 | Level n (1..4) with no stored parents has exactly the level n-1 group as parent. |
| Permissions.OpLevelOption | src/main/java/org/lanternpowered/server/service/permission/OpLevelCollection.java:129-132 | An op-level subject has no options. |
| Permissions.GetParents | src/main/java/org/lanternpowered/server/service/permission/base/SingleParentMemorySubjectData.java:52-56 | The parents are [parent] iff the contexts are global and a parent is set. Otherwise there are none. |
| Permissions.SetParent | src/main/java/org/lanternpowered/server/service/permission/base/SingleParentMemorySubjectData.java:87-90 | `setParent` stores the parent and reports success. |
| Permissions.AddParent | src/main/java/org/lanternpowered/server/service/permission/base/SingleParentMemorySubjectData.java:58-67 | `addParent` succeeds iff the subject is an op level and the contexts are global, and then replaces any previous parent. Otherwise nothing changes. |
| Permissions.RemoveParent | src/main/java/org/lanternpowered/server/service/permission/base/SingleParentMemorySubjectData.java:69-75 | `removeParent` clears the parent iff the argument is the current parent, whatever the contexts. Otherwise nothing changes. |
| Permissions.ClearParents | src/main/java/org/lanternpowered/server/service/permission/base/SingleParentMemorySubjectData.java:77-80 | `clearParents()` always clears and reports success. |
| Permissions.ClearParentsIn | src/main/java/org/lanternpowered/server/service/permission/base/SingleParentMemorySubjectData.java:82-85 | `clearParents(ctx)` clears iff the contexts are global. |
| Permissions.AddRemove | src/main/java/org/lanternpowered/server/service/permission/base/SingleParentMemorySubjectData.java:58-75 | Removing the parent just added leaves none, and a second add replaces the first. |
| Scoreboard.SendToPlayers | src/main/java/org/lanternpowered/server/scoreboard/LanternScoreboard.java:69-74 | Nothing is sent, and nothing built, iff there are no players. |
| Scoreboard.GetObjective | src/main/java/org/lanternpowered/server/scoreboard/LanternScoreboard.java:93-96 | Present exactly for a registered name. On a consistent board, the objective found has that name and is indexed under its criterion. |
| Scoreboard.GetSlotObjective | src/main/java/org/lanternpowered/server/scoreboard/LanternScoreboard.java:98-101 | Present exactly for an occupied slot. On a consistent board, the objective shown is the one registered under its name. |
| Scoreboard.ObjectivesByCriterion | src/main/java/org/lanternpowered/server/scoreboard/LanternScoreboard.java:147-150 | Empty for an unused criterion. On a consistent board, exactly the registered objectives with that criterion. |
| Scoreboard.InitMessages | src/main/java/org/lanternpowered/server/scoreboard/LanternScoreboard.java:115-124 | An objective's init messages are one create followed by one score update per score. |
| Scoreboard.AddObjective | src/main/java/org/lanternpowered/server/scoreboard/LanternScoreboard.java:103-113 | It fails with "A score with the name <name> already exists!" when the name is taken. Otherwise the objective is found by name and by criterion, nothing else changes, its init messages are broadcast, and consistency is kept. |
| Scoreboard.RemoveObjective | src/main/java/org/lanternpowered/server/scoreboard/LanternScoreboard.java:157-171 | An absent objective is a no-op. Otherwise the objective leaves the name map, the criterion index and every display slot, a removal is broadcast, and consistency is kept. |
| Scoreboard.UpdateDisplaySlot | src/main/java/org/lanternpowered/server/scoreboard/LanternScoreboard.java:126-145 | An objective not in the scoreboard fails with "The specified objective does not exist in this scoreboard.". Otherwise only the given slot changes. A message goes out iff there are players and the slot's objective changed. |
| Scoreboard.AddPlayer | src/main/java/org/lanternpowered/server/scoreboard/LanternScoreboard.java:83-91 | A new player gets every objective's init messages and one display message per occupied slot. |
| Scoreboard.RemovePlayer | src/main/java/org/lanternpowered/server/scoreboard/LanternScoreboard.java:76-81 | A leaving player is removed and gets one removal message per objective. |
| Scoreboard.AddThenRemove | src/main/java/org/lanternpowered/server/scoreboard/LanternScoreboard.java:103-171 | Removing an objective just added restores the scoreboard exactly. |
| ContainerSession.HandleWindowClick | src/main/java/org/lanternpowered/server/inventory/PlayerContainerSession.java:238-331 | A click is ignored iff no container is open or the window id differs. Any non-drag mode while dragging only resets the drag. A finished drag resets the drag, and its event, built with the corrected finishes, conserves the cursor's items. The drag list never holds a slot twice, and is empty when idle. |
| ContainerSession.FinishAgreesWithSource | src/main/java/org/lanternpowered/server/inventory/PlayerContainerSession.java:259-310 | For a left drag over at least one slot, or a right drag over no more slots than items, the handler's event is exactly the source's written finish. |
| ContainerSession.DragStarts | src/main/java/org/lanternpowered/server/inventory/PlayerContainerSession.java:325-329 | From idle with an item on the cursor, button 0 starts a left drag and button 4 a right drag. |
| ContainerSession.EmptyCursorResets | src/main/java/org/lanternpowered/server/inventory/PlayerContainerSession.java:251-253 | A drag click with an empty cursor resets the drag and sends nothing, whatever the button. |
| ContainerSession.MismatchedButtonResets | src/main/java/org/lanternpowered/server/inventory/PlayerContainerSession.java:322-324 | During a drag, a button that is not the add or end button of that drag resets the drag and sends nothing. |
| ContainerSession.AddSlotStep | src/main/java/org/lanternpowered/server/inventory/PlayerContainerSession.java:311-320 | The add button appends the clicked slot iff it exists, is not an output, accepts the item, is empty or holds the same kind, and is not yet listed. |
| ContainerSession.FinishLeftAsWritten | src/main/java/org/lanternpowered/server/inventory/PlayerContainerSession.java:259-284 | Finishing a left drag as written fails (division by zero) iff no slot was dragged over. Otherwise `perSlot*slots + rest == quantity` with `0 <= rest < slots`. |
| ContainerSession.FinishLeft | src/main/java/org/lanternpowered/server/inventory/PlayerContainerSession.java:259-284 | The corrected left finish offers nothing when there are no slots. Otherwise it is the written one: each slot is offered quantity/slots, and offers plus remainder equal the cursor. |
| ContainerSession.FinishRightAsWritten | src/main/java/org/lanternpowered/server/inventory/PlayerContainerSession.java:285-310 | Finishing a right drag as written offers one item to every slot, while leaving `quantity - min(slots, quantity)` on the cursor. |
| ContainerSession.FinishRight | src/main/java/org/lanternpowered/server/inventory/PlayerContainerSession.java:285-310 | The corrected right finish offers one item to each of the first `min(slots, quantity)` slots, and offers plus remainder equal the cursor. |
| ContainerSession.RightDragDuplicates | src/main/java/org/lanternpowered/server/inventory/PlayerContainerSession.java:285-310 | With more slots than items, the written right finish accounts for `slots - quantity` items more than the cursor held. The corrected one accounts for exactly the cursor. |
| ContainerSession.RightDragAgrees | src/main/java/org/lanternpowered/server/inventory/PlayerContainerSession.java:285-310 | With no more slots than items, the written and corrected right finishes coincide. |
| ContainerSession.TakeHalf | src/main/java/org/lanternpowered/server/inventory/PlayerContainerSession.java:381-388 | A right click with an empty cursor takes `n - n/2` items: the larger half, at most one more than what stays. |
| ContainerSession.ToNullable | src/main/java/org/lanternpowered/server/inventory/PlayerContainerSession.java:161-164 | A cursor set to an empty stack holds nothing, and any other stack is kept. |
| ContainerSession.FinishInventoryEvent | src/main/java/org/lanternpowered/server/inventory/PlayerContainerSession.java:696-726 | After a cancelled event, the cursor is resent, no slot is set and every transaction's slot is queued, in order. After an uncancelled event, valid slot transactions are applied and invalid ones queued. The cursor takes a valid cursor transaction's final item and is resent. A creative click leaves the cursor alone. |
| ContainerSession.Partition | src/main/java/org/lanternpowered/server/inventory/PlayerContainerSession.java:708-715 | Every slot transaction is either applied (iff valid) or queued (iff invalid), never both. |
| ContainerSession.DragFinishApplied | src/main/java/org/lanternpowered/server/inventory/PlayerContainerSession.java:259-310 | An accepted drag-finish event leaves exactly the event's remainder on the cursor. |
| ContainerSession.SetRawOpenContainer | src/main/java/org/lanternpowered/server/inventory/PlayerContainerSession.java:137-155 | Switching containers registers the player with the new one, initializes it and resends the cursor, then unregisters the player from the old one. Closing returns the cursor item to the player's inventory in the old container and empties the cursor. Re-setting the same container does nothing. |

## Left out

- Netty buffers are not modelled: every codec works on `seq<byte>`. The `Vector3i` writer, `Text` serialization and the legacy text rewrite are function parameters. UTF-8 is an abstract byte sequence.
- The context's VarInt writer and reader are not part of this model. They are modelled with the VarLong scheme at 32 bits (at most 5 bytes).
- `FML_HANDSHAKE_REGISTRY_DATA`'s value is not part of this model; it is a parameter. The id map's iteration order is the order of a sequence.
- Particles.ProcessAsWritten: the offset test `offset.equals(Vector3f.ZERO)` compares floats with `Float.compare`, so an offset holding `-0.0f` is not zero there and takes the jitter branch. With `real` there is no signed zero, and such an offset takes the zero-offset branch in the model.
- The particle processor uses `float`; the model uses `real`, so float rounding is not modelled. `java.util.Random` jitter is an uninterpreted function. The item and block id registries are inputs.
- The message registry behind `register` is not part of this model. It is modelled as an ordered list with first-match lookup. Handler objects are compared by kind.
- Discrete transforms are modelled as signed axis permutations plus a translation. These have exact inverses. Scaling transforms are left out.
- `AbstractBlockViewDownsize` and `AbstractBiomeViewTransform` are not part of this model. A downsize view checks its box and delegates. A transform view reads at the inverse image, and its bounds are the corner-wise min and max of the transformed corners.
- The concrete block buffer subclasses are not part of this model. `BlockBuffer.GetBlock` and `BlockBuffer.SetBlock` read and write the cell at `getIndex`. They use the corrected index, because the written one can leave the array.
- Immutable and mutable biome downsize views, worker operations, and block or biome copies are left out.
- The pagination calculator, headers, footers and text rendering are left out. Each entry is a line with its height.
- The translation manager's thread-safety (`CopyOnWriteArrayList`, `volatile`) is modelled sequentially.
- TaskBuilder.Name: the null/empty check `checkNotNullOrEmpty` is modelled by the outcome only. The message it throws is not stated.
- TaskBuilder.Submit: `checkPlugin` is modelled as an optional plugin, and its message is not stated. Handing the task to the scheduler is not modelled; the task is returned.
- Permissions.OpLevelParents: the service's `getGroupForOpLevel` is a parameter. `Permissions.ParentChain` takes it to be the collection's own lookup.
- The stored parents of `GlobalMemorySubjectData` are an input to `OpLevelParents`. Subject collections, command sources and the permission service are left out.
- Permissions.RemoveParent: `removeParent` compares subjects by reference (`parent == this.parent`, SingleParentMemorySubjectData.java line 71), and the model compares them by value. The op-level collection holds one subject per level, so the two agree there. Two distinct subjects with equal data are not distinguished.
- The scoreboard's `HashMap` iteration order is not modelled. `Scoreboard.AddPlayer` and `Scoreboard.RemovePlayer` return their messages as sets, so they say which messages are sent but not in what order. Objectives are compared by value, and the objective's back-reference to the scoreboard is left out.
- Teams, score queries and `removeScores` are left out; they are stubs or plain delegation.
- ContainerSession.HandleWindowClick models the drag modes only. Single clicks, shift clicks, number keys, middle clicks, drops and creative actions are other branches, left out except for `ContainerSession.TakeHalf`.
- ContainerSession.HandleWindowClick: finishes drags with the corrected `FinishLeft` and `FinishRight`. The source's left finish with no drag slots throws `ArithmeticException` at line 262 before `resetDrag()`, leaving the drag in progress; the model returns no event and resets. The source's right finish with more slots than items offers every slot one item (lines 290-294); the model offers only as many slots as there are items. `ContainerSession.FinishAgreesWithSource` states that elsewhere the two agree.
- Pagination.BuildPages: entry heights and the page's line count are unbounded integers. The source sums them in Java `int` (ListPagination.java lines 53 and 58), which wraps past 2^31 - 1.
- BlockBuffer.New: `end = start + size - 1` and the index strides are unbounded integers. The source computes them in `Vector3i` `int` arithmetic, which wraps for boxes beyond 2^31 - 1 in a coordinate or in volume. `BlockBuffer.Index` and `BlockBuffer.IndexAsWritten` are unbounded in the same way.
- Slot offers (`peekOfferFastTransactions`) are inputs: the model states what is offered, not what a slot accepts. Event posting, cancellation and the creative-click test are inputs to `ContainerSession.FinishInventoryEvent`.
- Sending packets, viewer sets and `openInventoryForAndInitialize` appear as effect lists or `Option` broadcasts, never as I/O.

## Findings

| source | as written | input that shows it | evidently intended | confidence | as-written member | corrected member |
|---|---|---|---|---|---|---|
| src/main/java/org/lanternpowered/server/util/gen/AbstractBlockBuffer.java:57-72 | The index is `dy*size.y*size.z + dz*size.y + dx`. | At size (2,1,2), (1,0,0) and (0,0,1) both get index 1. At size (1,2,1), (0,1,0) gets index 2 in a two-cell buffer. | Strides `size.x*size.z` and `size.x`, so the index is a bijection onto [0, volume). | high, not executed | BlockBuffer.AsWrittenCollides | BlockBuffer.IndexInverse |
| src/main/java/org/lanternpowered/server/network/vanilla/message/codec/play/CodecPlayOutBlockBreakAnimation.java:48 | `encode` returns `null`. | Any message. | Return the filled buffer. | high, not executed | BlockBreakCodec.EncodeAsWrittenReturnsNull | BlockBreakCodec.Encode |
| src/main/java/org/lanternpowered/server/network/vanilla/message/codec/play/CodecPlayOutChatMessage.java:57-61 | The action-bar text is rewritten into `text`, but `message.getMessage()` is written. | An action-bar message whose legacy rewrite serializes differently. | Write `text`. | high, not executed | ChatCodec.ActionBarRewriteDiscarded | ChatCodec.Encode |
| src/main/java/org/lanternpowered/server/network/vanilla/message/processor/play/ProcessorPlayOutParticleEffect.java:177-180 | With a zero offset, each of the `count` packets carries the zero offset where (f0, f1, f2) belong. | Blue redstone dust, count 3, offset 0: the colour never reaches the client. | Carry (f0, f1, f2) in the offset slot, as the non-zero branch does. | medium, not executed | Particles.ZeroOffsetDropsParams | Particles.Process |
| src/main/java/org/lanternpowered/server/inventory/PlayerContainerSession.java:262 | The left drag finish divides the quantity by the number of drag slots. | Start a left drag (mode 5, button 0), then finish it (button 2) without adding a slot: integer division by zero. | With no slot, distribute nothing. | high, not executed | ContainerSession.FinishLeftAsWritten | ContainerSession.FinishLeft |
| src/main/java/org/lanternpowered/server/inventory/PlayerContainerSession.java:286-295 | The right drag finish offers one item to every drag slot, but takes only `min(slots, quantity)` from the cursor. | A cursor of 1 item right-dragged over 2 slots offers 2 items and keeps 0: one item is created. | Offer to the first `min(slots, quantity)` slots only. | medium, not executed | ContainerSession.RightDragDuplicates | ContainerSession.FinishRight |
| src/main/java/org/lanternpowered/server/world/extent/MutableBiomeViewTransform.java:51 | The downsize gets the inverse images of the two corners unsorted. | Any view under an X reflection, with newMin.x < newMax.x: the inner box is inverted and reads nothing. | Sort the inverse images corner-wise. | medium, not executed | BiomeAreaViews.AsWrittenReflectionEmpty | BiomeAreaViews.GetBiomeView |
