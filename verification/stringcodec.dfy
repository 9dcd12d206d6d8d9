/**
 * `SerializerString`: a string on the wire is a VarInt byte count followed
 * by that many bytes of its UTF-8 encoding. UTF-8 itself is not modelled: a
 * string is represented by its encoded bytes.
 */
module StringCodec {
  import opened Wrappers
  import opened Bytes
  import opened VarNum

  /** The UTF-8 bytes of a Java string (at most the largest array length). */
  type Utf8 = s: seq<byte> | |s| <= MAX_ARRAY_LENGTH

  /** `write`: VarInt(number of UTF-8 bytes), then the bytes. */
  function WriteString(s: Utf8): (r: seq<byte>)
    ensures Read(Int32, r) == Ok(Decoded(|s|, s))
    ensures |s| < |r| <= |s| + Int32.MaxBytes()
  {
    RoundTrip(Int32, |s|, s);
    Write(Int32, |s|) + s
  }

  /**
   * `read`: the announced length is used as an array size as it stands, so
   * a negative one fails at allocation and one past the end of the buffer
   * fails in `readBytes`; no partial string is returned. A length that is
   * non-negative and fits is always read: decoding the bytes never fails.
   */
  function ReadString(buf: seq<byte>): (r: Result<Decoded<Utf8>, CodecError>)
    ensures r.Ok? ==> (&& Read(Int32, buf).Ok?
                       && Read(Int32, buf).value.value == |r.value.value|
                       && Read(Int32, buf).value.rest == r.value.value + r.value.rest)
    ensures Read(Int32, buf).Ok? && Read(Int32, buf).value.value < 0 ==> r == Err(NegativeLength)
    ensures Read(Int32, buf).Ok? && Read(Int32, buf).value.value > |Read(Int32, buf).value.rest|
            ==> r == Err(EndOfBuffer)
    ensures Read(Int32, buf).Err? ==> r == Err(Read(Int32, buf).error)
    ensures Read(Int32, buf).Ok? && 0 <= Read(Int32, buf).value.value <= |Read(Int32, buf).value.rest| ==> r.Ok?
  {
    var d :- Read(Int32, buf);
    var length := d.value;
    if length < 0 then Err(NegativeLength)
    else if length > |d.rest| then Err(EndOfBuffer)
    else
      assert d.rest == d.rest[..length] + d.rest[length..];
      ReadLengthBound(buf);
      Ok(Decoded(d.rest[..length], d.rest[length..]))
  }

  /** A decoded VarInt is a Java int, so it never exceeds the largest array length. */
  lemma ReadLengthBound(buf: seq<byte>)
    requires Read(Int32, buf).Ok?
    ensures Read(Int32, buf).value.value <= MAX_ARRAY_LENGTH
  {
    ReadFromInRange(Int32, buf, 0, 0);
  }

  lemma {:induction false} ReadFromInRange(w: Width, buf: seq<byte>, k: nat, acc: nat)
    requires k < w.MaxBytes()
    requires ReadFrom(w, buf, k, acc).Ok?
    ensures w.Contains(ReadFrom(w, buf, k, acc).value.value)
    decreases |buf|
  {
    if buf[0] >= 128 {
      ReadFromInRange(w, buf[1..], k + 1, Accumulate(acc, buf[0] - 128, k));
    }
  }

  /** A padded prefix is read like the canonical one: `[0x80, 0x00]` announces the empty string. */
  lemma PaddedEmptyString(rest: seq<byte>)
    ensures ReadString([0x80, 0x00] + rest) == Ok(Decoded([], rest))
  {
    PaddedZero(rest);
  }

  /** `[0x80, 0x00]`: a continuation byte with group 0, then a final 0, reads as 0. */
  lemma PaddedZero(rest: seq<byte>)
    ensures Read(Int32, [0x80, 0x00] + rest) == Ok(Decoded(0, rest))
  {
    var buf: seq<byte> := [0x80, 0x00] + rest;
    var tail := buf[1..];
    assert buf[0] == 0x80 && tail[0] == 0x00 && tail[1..] == rest;
    assert Read(Int32, buf) == ReadFrom(Int32, tail, 1, Accumulate(0, 0, 0));
    assert Accumulate(0, 0, 0) == 0;
    assert ReadFrom(Int32, tail, 1, 0) == Ok(Decoded(Finish(Int32, 0, 0, 1), tail[1..]));
    FinishZero();
  }

  /** A final byte 0 after one empty group is the value 0. */
  lemma FinishZero()
    ensures Finish(Int32, 0, 0, 1) == 0
  {
    assert 0 * Pow128(1) == 0;
    assert 0 % Int32.Modulus() == 0;
  }

  /** `read(write(s)) == s`, consuming exactly the written bytes. */
  lemma StringRoundTrip(s: Utf8, rest: seq<byte>)
    ensures ReadString(WriteString(s) + rest) == Ok(Decoded(s, rest))
  {
    RoundTrip(Int32, |s|, s + rest);
    assert WriteString(s) + rest == Write(Int32, |s|) + (s + rest);
    assert (s + rest)[..|s|] == s;
    assert (s + rest)[|s|..] == rest;
  }
}
