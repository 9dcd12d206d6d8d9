/**
 * Variable-length integers: seven data bits per byte, least-significant
 * group first, 0x80 marking "more bytes follow" (unsigned LEB128,
 * section 7.6 of DWARF version 4). `SerializerVarLong` implements the
 * 64-bit form; the 32-bit VarInt of the codec context uses the same scheme
 * with at most five bytes.
 */
module VarNum {
  import opened Wrappers
  import opened Bytes

  /** Why a codec gave up: the exceptions the source throws while coding. */
  datatype CodecError =
    | TooLong          // "Variable length is too long!"
    | EndOfBuffer      // the buffer ran out before the value was complete
    | NegativeLength   // a negative array size was announced
    | Unsupported      // the codec has no decode path at all
    | Rejected(reason: string) // a CodecException raised with a message

  /** A decoded value and the bytes left after it. */
  datatype Decoded<+T> = Decoded(value: T, rest: seq<byte>)

  function Pow128(k: nat): (p: nat)
    ensures p >= 1
  {
    if k == 0 then 1 else 128 * Pow128(k - 1)
  }

  /** The number a group sequence denotes: sum of (b & 0x7F) << 7i. */
  function Weight(bs: seq<byte>): nat {
    if |bs| == 0 then 0 else bs[0] % 128 + 128 * Weight(bs[1..])
  }

  /** The 7-bit groups of the bit pattern `u`, continuation bit on all but the last. */
  function Groups(u: nat): (r: seq<byte>)
    ensures |r| >= 1
    decreases u
  {
    if u < 128 then [u] else [u % 128 + 128] + Groups(u / 128)
  }

  /** Every byte but the last carries the continuation bit 0x80; the last does not. */
  lemma {:induction false} GroupsContinuation(u: nat)
    ensures Groups(u)[|Groups(u)| - 1] < 128
    ensures forall i :: 0 <= i < |Groups(u)| - 1 ==> Groups(u)[i] >= 128
    decreases u
  {
    if u >= 128 {
      var r := Groups(u);
      var t := Groups(u / 128);
      assert r == [u % 128 + 128] + t;
      GroupsContinuation(u / 128);
      forall i | 0 <= i < |r| - 1
        ensures r[i] >= 128
      {
        if i > 0 { assert r[i] == t[i - 1]; }
      }
    }
  }

  /** The groups, weighted by 128^i, add back up to the value. */
  lemma {:induction false} GroupsWeight(u: nat)
    ensures Weight(Groups(u)) == u
    decreases u
  {
    if u >= 128 {
      var r := Groups(u);
      assert r[1..] == Groups(u / 128);
      GroupsWeight(u / 128);
    }
  }

  /** An encoding is at most `n` bytes long exactly when the value is below 128^n. */
  lemma {:induction false} GroupsLength(u: nat, n: nat)
    requires n >= 1
    ensures |Groups(u)| <= n <==> u < Pow128(n)
    decreases u
  {
    if u >= 128 {
      if n == 1 {
        assert |Groups(u)| >= 2;
      } else {
        GroupsLength(u / 128, n - 1);
        assert Pow128(n) == 128 * Pow128(n - 1);
      }
    }
  }

  /** 128^(MaxBytes-1) is half the modulus and 128^MaxBytes exceeds it. */
  lemma WidthPowers()
    ensures Pow128(Int32.MaxBytes() - 1) * 8 == Int32.Modulus() / 2
    ensures Pow128(Int32.MaxBytes()) > Int32.Modulus()
    ensures Pow128(Int64.MaxBytes() - 1) == Int64.Modulus() / 2
    ensures Pow128(Int64.MaxBytes()) > Int64.Modulus()
  {
    assert Pow128(4) == 0x1000_0000;
    assert Pow128(5) == 0x8_0000_0000;
    assert Pow128(9) == 0x8000_0000_0000_0000;
    assert Pow128(10) == 0x40_0000_0000_0000_0000;
  }

  /** `SerializerVarLong.write`: the loop of the source, on the unsigned bit pattern. */
  method WriteVarLong(v: int) returns (out: seq<byte>)
    requires Int64.Contains(v)
    ensures out == Groups(Unsigned(Int64, v))
  {
    var value: nat := Unsigned(Int64, v);
    ghost var all := Groups(value);
    out := [];
    while value >= 128
      invariant out + Groups(value) == all
      decreases value
    {
      var b: byte := value % 128 + 128;
      assert Groups(value) == [b] + Groups(value / 128);
      out := out + [b];
      value := value / 128;
    }
    out := out + [value];
  }

  /** The bytes `write` emits for a value of width `w`. */
  function Write(w: Width, v: int): (r: seq<byte>)
    requires w.Contains(v)
    ensures 1 <= |r| <= w.MaxBytes()
    ensures v < 0 ==> |r| == w.MaxBytes()
    ensures w.Int64? ==> (|r| == w.MaxBytes() <==> v < 0)
    ensures 0 <= v < 128 ==> r == [v]
    ensures Weight(r) == Unsigned(w, v)
  {
    var u := Unsigned(w, v);
    GroupsWeight(u);
    GroupsLength(u, w.MaxBytes());
    GroupsLength(u, w.MaxBytes() - 1);
    WidthPowers();
    Groups(u)
  }

  /**
   * The reader loop after `k` continuation bytes have added up to `acc`:
   * a byte with the high bit set adds its low seven bits at shift 7k and
   * fails once it is the `MaxBytes`-th byte; the first byte without it ends
   * the value, which then wraps to the width's bit pattern.
   */
  function ReadFrom(w: Width, buf: seq<byte>, k: nat, acc: nat): Result<Decoded<int>, CodecError>
    requires k < w.MaxBytes()
    decreases |buf|
  {
    if |buf| == 0 then Err(EndOfBuffer)
    else if buf[0] >= 128 then
      if k + 1 >= w.MaxBytes() then Err(TooLong)
      else ReadFrom(w, buf[1..], k + 1, Accumulate(acc, buf[0] - 128, k))
    else Ok(Decoded(Finish(w, acc, buf[0], k), buf[1..]))
  }

  /** `value |= (b & 0x7F) << 7k` for a continuation byte. */
  function Accumulate(acc: nat, group: nat, k: nat): nat {
    acc + group * Pow128(k)
  }

  /** `value | (b << 7k)` for the final byte, wrapped to the width. */
  function Finish(w: Width, acc: nat, b: nat, k: nat): int {
    Signed(w, (acc + b * Pow128(k)) % w.Modulus())
  }

  /** `SerializerVarLong.read` (and the VarInt reader): decode from the front of `buf`. */
  function Read(w: Width, buf: seq<byte>): Result<Decoded<int>, CodecError> {
    ReadFrom(w, buf, 0, 0)
  }

  /** Splitting off the low group: acc + u*128^k == (acc + (u%128)*128^k) + (u/128)*128^(k+1). */
  lemma ShiftGroup(acc: nat, u: nat, k: nat)
    ensures Accumulate(acc, u % 128, k) + (u / 128) * Pow128(k + 1) == acc + u * Pow128(k)
  {
    var p := Pow128(k);
    var g := u % 128;
    var q := u / 128;
    assert u == g + 128 * q;
    assert Pow128(k + 1) == 128 * p;
    assert q * (128 * p) == (128 * q) * p;
    assert (g + 128 * q) * p == g * p + (128 * q) * p;
  }

  lemma {:induction false} ReadFromGroups(w: Width, u: nat, rest: seq<byte>, k: nat, acc: nat)
    requires k < w.MaxBytes()
    requires |Groups(u)| + k <= w.MaxBytes()
    ensures ReadFrom(w, Groups(u) + rest, k, acc)
         == Ok(Decoded(Signed(w, (acc + u * Pow128(k)) % w.Modulus()), rest))
    decreases u
  {
    var buf := Groups(u) + rest;
    if u < 128 {
      assert buf[0] == u && buf[1..] == rest;
    } else {
      var g := u % 128;
      assert buf[0] == g + 128;
      assert buf[1..] == Groups(u / 128) + rest;
      ReadFromGroups(w, u / 128, rest, k + 1, Accumulate(acc, g, k));
      ShiftGroup(acc, u, k);
    }
  }

  lemma SmallMod(u: nat, m: nat)
    requires u < m
    ensures u % m == u
  {
  }

  /** Every bit pattern of a width encodes in at most `MaxBytes` bytes. */
  lemma GroupsFit(w: Width, u: nat)
    requires u < w.Modulus()
    ensures |Groups(u)| <= w.MaxBytes()
  {
    WidthPowers();
    GroupsLength(u, w.MaxBytes());
  }

  /** `read(write(v)) == v`, and the read consumes exactly the written bytes. */
  lemma RoundTrip(w: Width, v: int, rest: seq<byte>)
    requires w.Contains(v)
    ensures Read(w, Write(w, v) + rest) == Ok(Decoded(v, rest))
  {
    var u := Unsigned(w, v);
    assert Write(w, v) == Groups(u);
    GroupsFit(w, u);
    ReadFromGroups(w, u, rest, 0, 0);
    var x := (0 + u * Pow128(0)) % w.Modulus();
    assert x == u by {
      assert Pow128(0) == 1;
      SmallMod(u, w.Modulus());
    }
  }

  lemma {:induction false} ReadFromIgnoresTail(w: Width, buf: seq<byte>, k: nat, acc: nat, extra: seq<byte>)
    requires k < w.MaxBytes()
    requires ReadFrom(w, buf, k, acc).Ok?
    ensures |ReadFrom(w, buf, k, acc).value.rest| < |buf|
    ensures ReadFrom(w, buf + extra, k, acc)
         == Ok(Decoded(ReadFrom(w, buf, k, acc).value.value, ReadFrom(w, buf, k, acc).value.rest + extra))
    decreases |buf|
  {
    assert (buf + extra)[0] == buf[0];
    assert (buf + extra)[1..] == buf[1..] + extra;
    if buf[0] >= 128 {
      ReadFromIgnoresTail(w, buf[1..], k + 1, acc + (buf[0] - 128) * Pow128(k), extra);
    }
  }

  /**
   * The reader stops at the first byte whose high bit is clear: bytes after
   * it are neither consumed nor able to change the result.
   */
  lemma ReadIgnoresTail(w: Width, buf: seq<byte>, extra: seq<byte>)
    requires Read(w, buf).Ok?
    ensures |Read(w, buf).value.rest| < |buf|
    ensures Read(w, buf + extra) == Ok(Decoded(Read(w, buf).value.value, Read(w, buf).value.rest + extra))
  {
    ReadFromIgnoresTail(w, buf, 0, 0, extra);
  }

  lemma {:induction false} ReadFromTooLong(w: Width, buf: seq<byte>, k: nat, acc: nat)
    requires k < w.MaxBytes()
    ensures ReadFrom(w, buf, k, acc) == Err(TooLong)
        <==> (|buf| >= w.MaxBytes() - k && forall i :: 0 <= i < w.MaxBytes() - k ==> buf[i] >= 128)
    decreases |buf|
  {
    if |buf| > 0 && buf[0] >= 128 && k + 1 < w.MaxBytes() {
      ReadFromTooLong(w, buf[1..], k + 1, acc + (buf[0] - 128) * Pow128(k));
      if |buf| >= w.MaxBytes() - k && forall i :: 0 <= i < w.MaxBytes() - k ==> buf[i] >= 128 {
        assert forall i :: 0 <= i < w.MaxBytes() - (k + 1) ==> buf[1..][i] == buf[i + 1];
      }
      if |buf[1..]| >= w.MaxBytes() - (k + 1) && forall i :: 0 <= i < w.MaxBytes() - (k + 1) ==> buf[1..][i] >= 128 {
        forall i | 0 <= i < w.MaxBytes() - k
          ensures buf[i] >= 128
        {
          if i > 0 { assert buf[i] == buf[1..][i - 1]; }
        }
      }
    }
  }

  /**
   * The reader fails with "too long" exactly when the first `MaxBytes`
   * bytes all carry the continuation bit (ten for a VarLong).
   */
  lemma ReadTooLong(w: Width, buf: seq<byte>)
    ensures Read(w, buf) == Err(TooLong)
        <==> (|buf| >= w.MaxBytes() && forall i :: 0 <= i < w.MaxBytes() ==> buf[i] >= 128)
  {
    ReadFromTooLong(w, buf, 0, 0);
  }
}
