/** Bytes, and the big-endian encoding of unsigned 32-bit integers: `u32::from_be_bytes` and its inverse `u32::to_be_bytes`. */
module BigEndian {

  const U32Limit: nat := 0x1_0000_0000

  /** Rust's `u8`. */
  type byte = x: nat | x < 0x100

  /** Rust's `u32`. */
  type u32 = x: nat | x < U32Limit

  /** Appends one less significant byte to a big-endian prefix value. */
  function Shift(high: nat, low: byte): nat {
    high * 0x100 + low
  }

  /** `u32::from_be_bytes`: the first byte is the most significant. */
  function Be32(b: seq<byte>): (v: u32)
    requires |b| == 4
  {
    Shift(Shift(Shift(b[0], b[1]), b[2]), b[3])
  }

  /** Splitting off the least significant byte undoes `Shift`. */
  lemma ShiftSplits(high: nat, low: byte)
    ensures Shift(high, low) / 0x100 == high
    ensures Shift(high, low) % 0x100 == low
  {
  }

  /** `u32::to_be_bytes`, which `Be32` reads back. */
  function Be32Bytes(v: u32): (b: seq<byte>)
    ensures |b| == 4
    ensures Be32(b) == v
  {
    var r1 := v / 0x100;
    var r2 := r1 / 0x100;
    [r2 / 0x100, r2 % 0x100, r1 % 0x100, v % 0x100]
  }

  /** Four bytes are recovered from the integer they encode. */
  lemma Be32BytesOfBe32(b: seq<byte>)
    requires |b| == 4
    ensures Be32Bytes(Be32(b)) == b
  {
    var r2 := Shift(b[0], b[1]);
    var r1 := Shift(r2, b[2]);
    ShiftSplits(r1, b[3]);
    ShiftSplits(r2, b[2]);
    ShiftSplits(b[0], b[1]);
  }

  /** Decoding is injective: different byte patterns give different integers. */
  lemma Be32Injective(a: seq<byte>, b: seq<byte>)
    requires |a| == 4 && |b| == 4
    ensures Be32(a) == Be32(b) ==> a == b
  {
    Be32BytesOfBe32(a);
    Be32BytesOfBe32(b);
  }
}
