/** Bytes and the two's-complement integer widths of the JVM. */
module Bytes {

  /** One octet on the wire, as an unsigned value. */
  type byte = b: int | 0 <= b < 256

  /** The two Java integer widths the protocol encodes: `int` and `long`. */
  datatype Width = Int32 | Int64 {
    /** 2^bits */
    function Modulus(): nat {
      if Int32? then 0x1_0000_0000 else 0x1_0000_0000_0000_0000
    }

    /** The longest variable-length encoding a reader accepts (ceil(bits / 7)). */
    function MaxBytes(): nat {
      if Int32? then 5 else 10
    }

    /** `v` is a value of this Java type. */
    predicate Contains(v: int) {
      -(Modulus() / 2) <= v < Modulus() / 2
    }
  }

  /** Reinterprets a bit pattern `u` as a signed value of width `w`. */
  function Signed(w: Width, u: nat): (v: int)
    requires u < w.Modulus()
    ensures w.Contains(v)
    ensures v < 0 <==> u >= w.Modulus() / 2
  {
    if u < w.Modulus() / 2 then u else u - w.Modulus()
  }

  /** The bit pattern of the signed value `v`, as Java's `>>>` and masks see it. */
  function Unsigned(w: Width, v: int): (u: nat)
    requires w.Contains(v)
    ensures u < w.Modulus()
    ensures Signed(w, u) == v
    ensures v >= 0 ==> u == v
  {
    if v >= 0 then v else v + w.Modulus()
  }

  /** Java arithmetic of width `w`: the result of `x` wrapped around into the type's range. */
  function Wrap(w: Width, x: int): (v: int)
    ensures w.Contains(v)
    ensures (v - x) % w.Modulus() == 0
    ensures w.Contains(x) ==> v == x
  {
    Signed(w, x % w.Modulus())
  }

  /** The low eight bits of `v`: a `(byte)` cast followed by `writeByte`. */
  function LowByte(v: int): (b: byte)
    ensures 0 <= v < 256 ==> b == v
    ensures (v - b) % 256 == 0
  {
    v % 256
  }

  /** Java's largest array length, which bounds every byte[] and string. */
  const MAX_ARRAY_LENGTH: nat := 0x7FFF_FFFF
}
