/**
 * `ProcessorHandshakeOutRegistryData`: the Forge (FML) handshake sends the
 * id tables of the game registries as one "FML|HS" channel payload per
 * registry. A registry's id map is represented by its entries in iteration
 * order; strings by their UTF-8 bytes.
 */
module RegistryData {
  import opened Wrappers
  import opened Bytes
  import opened VarNum
  import opened StringCodec

  /** One registry: its (name, id) pairs and its substitution names. */
  datatype Entry = Entry(ids: seq<(Utf8, int)>, substitutions: seq<Utf8>)

  predicate ValidIds(ids: seq<(Utf8, int)>) {
    forall i :: 0 <= i < |ids| ==> Int32.Contains(ids[i].1)
  }

  predicate ValidEntry(e: Entry) {
    |e.ids| <= MAX_ARRAY_LENGTH && |e.substitutions| <= MAX_ARRAY_LENGTH && ValidIds(e.ids)
  }

  datatype ChannelPayload = ChannelPayload(channel: string, data: seq<byte>)

  const CHANNEL: string := "FML|HS"

  function IdPairs(ids: seq<(Utf8, int)>): seq<byte>
    requires ValidIds(ids)
  {
    if |ids| == 0 then []
    else WriteString(ids[0].0) + Write(Int32, ids[0].1) + IdPairs(ids[1..])
  }

  function Strings(ss: seq<Utf8>): seq<byte> {
    if |ss| == 0 then [] else WriteString(ss[0]) + Strings(ss[1..])
  }

  /** VarInt id count, (name, VarInt id) per id, VarInt substitution count, the substitutions. */
  function Body(e: Entry): seq<byte>
    requires ValidEntry(e)
  {
    Write(Int32, |e.ids|) + IdPairs(e.ids) + Write(Int32, |e.substitutions|) + Strings(e.substitutions)
  }

  /** `process`: fails on an empty list, otherwise one payload per registry, in order. */
  function Process(entries: seq<Entry>, discriminator: byte): (r: Result<seq<ChannelPayload>, CodecError>)
    requires forall i :: 0 <= i < |entries| ==> ValidEntry(entries[i])
    ensures r.Err? <==> |entries| == 0
    ensures r.Err? ==> r.error == Rejected("There must be at least one entry present!")
    ensures r.Ok? ==> |r.value| == |entries|
    ensures r.Ok? ==> forall i :: 0 <= i < |r.value| ==> r.value[i].channel == CHANNEL
  {
    if |entries| == 0 then Err(Rejected("There must be at least one entry present!"))
    else Ok(Payloads(entries, discriminator))
  }

  function Payloads(entries: seq<Entry>, discriminator: byte): (r: seq<ChannelPayload>)
    requires forall i :: 0 <= i < |entries| ==> ValidEntry(entries[i])
    ensures |r| == |entries|
    ensures forall i :: 0 <= i < |r| ==> r[i].channel == CHANNEL
  {
    seq(|entries|, i requires 0 <= i < |entries| =>
      ChannelPayload(CHANNEL, [discriminator, if i + 1 < |entries| then 1 else 0] + Body(entries[i])))
  }

  // ---- a client-side reader of the payloads, independent of the writer ----

  function ReadIdPairs(buf: seq<byte>, n: nat): Result<Decoded<seq<(Utf8, int)>>, CodecError>
    decreases n
  {
    if n == 0 then Ok(Decoded([], buf))
    else
      var name :- ReadString(buf);
      var id :- Read(Int32, name.rest);
      var more :- ReadIdPairs(id.rest, n - 1);
      Ok(Decoded([(name.value, id.value)] + more.value, more.rest))
  }

  function ReadStrings(buf: seq<byte>, n: nat): Result<Decoded<seq<Utf8>>, CodecError>
    decreases n
  {
    if n == 0 then Ok(Decoded([], buf))
    else
      var s :- ReadString(buf);
      var more :- ReadStrings(s.rest, n - 1);
      Ok(Decoded([s.value] + more.value, more.rest))
  }

  function ReadBody(buf: seq<byte>): Result<Decoded<Entry>, CodecError> {
    var idCount :- Read(Int32, buf);
    if idCount.value < 0 then Err(NegativeLength)
    else
      var ids :- ReadIdPairs(idCount.rest, idCount.value);
      var subCount :- Read(Int32, ids.rest);
      if subCount.value < 0 then Err(NegativeLength)
      else
        var subs :- ReadStrings(subCount.rest, subCount.value);
        Ok(Decoded(Entry(ids.value, subs.value), subs.rest))
  }

  /** What a payload tells the client: discriminator, "more follows", and the registry. */
  function ReadPayload(data: seq<byte>): Result<(byte, bool, Entry), CodecError> {
    if |data| < 2 then Err(EndOfBuffer)
    else
      var body :- ReadBody(data[2..]);
      if |body.rest| != 0 then Err(Rejected("trailing bytes"))
      else Ok((data[0], data[1] != 0, body.value))
  }

  lemma {:induction false} IdPairsRoundTrip(ids: seq<(Utf8, int)>, rest: seq<byte>)
    requires ValidIds(ids)
    ensures ReadIdPairs(IdPairs(ids) + rest, |ids|) == Ok(Decoded(ids, rest))
    decreases |ids|
  {
    if |ids| > 0 {
      var buf := IdPairs(ids) + rest;
      var after := IdPairs(ids[1..]) + rest;
      var afterName := Write(Int32, ids[0].1) + after;
      assert buf == WriteString(ids[0].0) + afterName;
      StringRoundTrip(ids[0].0, afterName);
      assert ReadString(buf) == Ok(Decoded(ids[0].0, afterName));
      RoundTrip(Int32, ids[0].1, after);
      IdPairsRoundTrip(ids[1..], rest);
      assert [(ids[0].0, ids[0].1)] + ids[1..] == ids;
      assert ReadIdPairs(buf, |ids|) == Ok(Decoded([(ids[0].0, ids[0].1)] + ids[1..], rest));
    } else {
      assert IdPairs(ids) + rest == rest;
    }
  }

  lemma {:induction false} StringsRoundTrip(ss: seq<Utf8>, rest: seq<byte>)
    ensures ReadStrings(Strings(ss) + rest, |ss|) == Ok(Decoded(ss, rest))
    decreases |ss|
  {
    if |ss| > 0 {
      var buf := Strings(ss) + rest;
      var after := Strings(ss[1..]) + rest;
      assert buf == WriteString(ss[0]) + after;
      StringRoundTrip(ss[0], after);
      assert ReadString(buf) == Ok(Decoded(ss[0], after));
      StringsRoundTrip(ss[1..], rest);
      assert [ss[0]] + ss[1..] == ss;
      assert ReadStrings(buf, |ss|) == Ok(Decoded([ss[0]] + ss[1..], rest));
    } else {
      assert Strings(ss) + rest == rest;
    }
  }

  /** `ReadBody` reads the id count, the ids, the substitution count and the substitutions, in that order. */
  lemma ReadBodyLayout(counted: seq<byte>, pairs: seq<byte>, subCount: seq<byte>, names: seq<byte>, rest: seq<byte>,
                       ids: seq<(Utf8, int)>, subs: seq<Utf8>)
    requires Read(Int32, counted + (pairs + (subCount + (names + rest)))) == Ok(Decoded(|ids|, pairs + (subCount + (names + rest))))
    requires ReadIdPairs(pairs + (subCount + (names + rest)), |ids|) == Ok(Decoded(ids, subCount + (names + rest)))
    requires Read(Int32, subCount + (names + rest)) == Ok(Decoded(|subs|, names + rest))
    requires ReadStrings(names + rest, |subs|) == Ok(Decoded(subs, rest))
    ensures ReadBody(counted + (pairs + (subCount + (names + rest)))) == Ok(Decoded(Entry(ids, subs), rest))
  {
  }

  /** Reading a body back recovers the registry exactly, consuming only the body. */
  lemma BodyRoundTrip(e: Entry, rest: seq<byte>)
    requires ValidEntry(e)
    ensures ReadBody(Body(e) + rest) == Ok(Decoded(e, rest))
  {
    var counted, pairs := Write(Int32, |e.ids|), IdPairs(e.ids);
    var subCount, names := Write(Int32, |e.substitutions|), Strings(e.substitutions);
    BodyLayout(e, rest);
    RoundTrip(Int32, |e.ids|, pairs + (subCount + (names + rest)));
    IdPairsRoundTrip(e.ids, subCount + (names + rest));
    RoundTrip(Int32, |e.substitutions|, names + rest);
    StringsRoundTrip(e.substitutions, rest);
    ReadBodyLayout(counted, pairs, subCount, names, rest, e.ids, e.substitutions);
  }

  lemma BodyLayout(e: Entry, rest: seq<byte>)
    requires ValidEntry(e)
    ensures Body(e) + rest
         == Write(Int32, |e.ids|) + (IdPairs(e.ids) + (Write(Int32, |e.substitutions|) + (Strings(e.substitutions) + rest)))
  {
  }

  /**
   * Each payload starts with the discriminator, says "more follows" on all
   * but the last, and carries its own registry, recoverable byte-exactly.
   */
  lemma ProcessPayloads(entries: seq<Entry>, discriminator: byte, i: nat)
    requires forall j :: 0 <= j < |entries| ==> ValidEntry(entries[j])
    requires i < |entries|
    ensures Process(entries, discriminator).Ok?
    ensures ReadPayload(Process(entries, discriminator).value[i].data)
         == Ok((discriminator, i + 1 < |entries|, entries[i]))
  {
    var data := Process(entries, discriminator).value[i].data;
    BodyRoundTrip(entries[i], []);
    assert data[2..] == Body(entries[i]) + [];
  }
}
