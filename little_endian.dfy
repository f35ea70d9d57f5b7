/**
 * The 8-byte little-endian form in which a 64-bit register value travels
 * to and from a per-core MSR device: byte 0 is the least significant.
 */
module LittleEndian {

  /** The low byte of `v`. */
  function LowByte(v: bv64): bv8 { (v & 0xff) as bv8 }

  /** Encodes `v` as 8 bytes, least significant first. */
  function PutUint64(v: bv64): (b: seq<bv8>)
    ensures |b| == 8
    ensures b[0] == LowByte(v)
  {
    [LowByte(v), LowByte(v >> 8), LowByte(v >> 16), LowByte(v >> 24),
     LowByte(v >> 32), LowByte(v >> 40), LowByte(v >> 48), LowByte(v >> 56)]
  }

  /** Decodes the first 8 bytes of `b`, least significant first. */
  function Uint64(b: seq<bv8>): (v: bv64)
    requires |b| >= 8
    ensures PutUint64(v) == b[..8]
  {
    OrBytes(b[0], b[1], b[2], b[3], b[4], b[5], b[6], b[7]);
    (b[0] as bv64) | ((b[1] as bv64) << 8) | ((b[2] as bv64) << 16) | ((b[3] as bv64) << 24) |
    ((b[4] as bv64) << 32) | ((b[5] as bv64) << 40) | ((b[6] as bv64) << 48) | ((b[7] as bv64) << 56)
  }

  // The bit arithmetic behind Uint64 and the byte order, kept free of
  // sequences so that each is a single bit-vector obligation.

  /** Each byte ORed in at its offset can be read back from that offset. */
  lemma OrBytes(b0: bv8, b1: bv8, b2: bv8, b3: bv8, b4: bv8, b5: bv8, b6: bv8, b7: bv8)
    ensures var v := (b0 as bv64) | ((b1 as bv64) << 8) | ((b2 as bv64) << 16) | ((b3 as bv64) << 24) |
                     ((b4 as bv64) << 32) | ((b5 as bv64) << 40) | ((b6 as bv64) << 48) | ((b7 as bv64) << 56);
            LowByte(v) == b0 && LowByte(v >> 8) == b1 && LowByte(v >> 16) == b2 &&
            LowByte(v >> 24) == b3 && LowByte(v >> 32) == b4 && LowByte(v >> 40) == b5 &&
            LowByte(v >> 48) == b6 && LowByte(v >> 56) == b7
  {
  }

  /** Shifting by one more byte is shifting by 8 more bits. */
  lemma ShiftsCompose(v: bv64)
    ensures v >> 8 >> 8 == v >> 16
    ensures v >> 16 >> 8 == v >> 24
    ensures v >> 24 >> 8 == v >> 32
    ensures v >> 32 >> 8 == v >> 40
    ensures v >> 40 >> 8 == v >> 48
    ensures v >> 48 >> 8 == v >> 56
  {
  }

  /**
   * The byte order: byte 0 is the low byte, and bytes 1..7 are the first
   * seven bytes of the encoding of the value shifted right by one byte. By
   * induction, byte i holds bits 8*i .. 8*i+7.
   */
  lemma EncodeShift(v: bv64)
    ensures PutUint64(v)[0] == LowByte(v)
    ensures PutUint64(v)[1..] == PutUint64(v >> 8)[..7]
  {
    ShiftsCompose(v);
  }

  /** Decoding the encoding of a value gives the value back. */
  lemma DecodeEncode(v: bv64)
    ensures Uint64(PutUint64(v)) == v
  {
  }

  /** Encoding the decoded value gives back the 8 bytes decoded. */
  lemma EncodeDecode(b: seq<bv8>)
    requires |b| == 8
    ensures PutUint64(Uint64(b)) == b
  {
    assert b[..8] == b;
  }
}
