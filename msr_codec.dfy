/**
 * The bitfield codec of an AMD P-state MSR value (a 64-bit register).
 *
 *   bit 63       enabled flag
 *   bits 14..21  VID, voltage identifier (8 bits)
 *   bits  8..13  DID, divisor identifier (6 bits)
 *   bits  0..7   FID, frequency identifier (8 bits)
 *
 * Values are `bv64`, so the unsigned 64-bit arithmetic of the program,
 * wrap-around and shifts that drop high bits included, is the arithmetic
 * of the model.
 */
module MsrCodec {

  // The field masks: bits 0..7, 8..13 and 14..21.
  const FidMask: bv64 := 0x0000_00ff
  const DidMask: bv64 := 0x0000_3f00
  const VidMask: bv64 := 0x003f_c000
  const EnabledBit: bv64 := 63

  /** `a` and `b` agree on every bit outside `mask`. */
  predicate SameOutside(a: bv64, b: bv64, mask: bv64)
  {
    a & !mask == b & !mask
  }

  /*
   * Field extraction. Each field fits its width, and a value is the bits
   * outside the field together with the field put back at its offset.
   */

  /** The FID field of a register value. */
  function FidOf(v: bv64): (f: bv64)
    ensures f <= 0xff
    ensures (v & !FidMask) | f == v
  {
    FidSplit(v);
    v & 0xff
  }

  /** The DID field of a register value. */
  function DidOf(v: bv64): (f: bv64)
    ensures f <= 0x3f
    ensures (v & !DidMask) | (f << 8) == v
  {
    DidSplit(v);
    (v >> 8) & 0x3f
  }

  /** The VID field of a register value. */
  function VidOf(v: bv64): (f: bv64)
    ensures f <= 0xff
    ensures (v & !VidMask) | (f << 14) == v
  {
    VidSplit(v);
    (v >> 14) & 0xff
  }

  lemma FidSplit(v: bv64)
    ensures v & 0xff <= 0xff && (v & !FidMask) | (v & 0xff) == v
  {
  }

  lemma DidSplit(v: bv64)
    ensures (v >> 8) & 0x3f <= 0x3f && (v & !DidMask) | (((v >> 8) & 0x3f) << 8) == v
  {
  }

  lemma VidSplit(v: bv64)
    ensures (v >> 14) & 0xff <= 0xff && (v & !VidMask) | (((v >> 14) & 0xff) << 14) == v
  {
  }

  /*
   * Field setters. Each clears its field and then ADDS the new value, which
   * is not masked first: an argument too wide for the field carries into the
   * bits above it, modulo 2^64. For an argument that fits, the result holds
   * the argument in the field and the input everywhere else.
   */

  /** Replaces the FID field (bits 0..7). The field receives the low 8 bits of `fid`. */
  function SetFid(msr: bv64, fid: bv64): (r: bv64)
    ensures fid <= 0xff ==> FidOf(r) == fid && SameOutside(r, msr, FidMask)
    ensures FidOf(r) == FidOf(fid)
  {
    FidArithmetic(msr, fid);
    (msr & !FidMask) + fid
  }

  /**
   * Replaces the DID field (bits 8..13). The field receives the low 6 bits of
   * `did` and FID is kept, whatever `did` is.
   */
  function SetDid(msr: bv64, did: bv64): (r: bv64)
    ensures did <= 0x3f ==> DidOf(r) == did && SameOutside(r, msr, DidMask)
    ensures DidOf(r) == did & 0x3f
    ensures FidOf(r) == FidOf(msr)
  {
    DidArithmetic(msr, did);
    (msr & !DidMask) + (did << 8)
  }

  /**
   * Replaces the VID field (bits 14..21). The field receives the low 8 bits
   * of `vid` and FID and DID are kept, whatever `vid` is.
   */
  function SetVid(msr: bv64, vid: bv64): (r: bv64)
    ensures vid <= 0xff ==> VidOf(r) == vid && SameOutside(r, msr, VidMask)
    ensures VidOf(r) == vid & 0xff
    ensures FidOf(r) == FidOf(msr) && DidOf(r) == DidOf(msr)
  {
    VidArithmetic(msr, vid);
    (msr & !VidMask) + (vid << 14)
  }

  // The bit arithmetic behind the setters, one obligation per setter.

  lemma FidArithmetic(msr: bv64, fid: bv64)
    ensures fid <= 0xff ==> FidOf((msr & !FidMask) + fid) == fid
    ensures fid <= 0xff ==> ((msr & !FidMask) + fid) & !FidMask == msr & !FidMask
    ensures FidOf((msr & !FidMask) + fid) == FidOf(fid)
  {
  }

  lemma DidArithmetic(msr: bv64, did: bv64)
    ensures did <= 0x3f ==> DidOf((msr & !DidMask) + (did << 8)) == did
    ensures did <= 0x3f ==> ((msr & !DidMask) + (did << 8)) & !DidMask == msr & !DidMask
    ensures DidOf((msr & !DidMask) + (did << 8)) == did & 0x3f
    ensures FidOf((msr & !DidMask) + (did << 8)) == FidOf(msr)
  {
  }

  lemma VidArithmetic(msr: bv64, vid: bv64)
    ensures vid <= 0xff ==> VidOf((msr & !VidMask) + (vid << 14)) == vid
    ensures vid <= 0xff ==> ((msr & !VidMask) + (vid << 14)) & !VidMask == msr & !VidMask
    ensures VidOf((msr & !VidMask) + (vid << 14)) == vid & 0xff
    ensures FidOf((msr & !VidMask) + (vid << 14)) == FidOf(msr)
    ensures DidOf((msr & !VidMask) + (vid << 14)) == DidOf(msr)
  {
  }

  /*
   * Bit helpers. The position is an unsigned 64-bit value, and `1 << pos`
   * on a 64-bit value is zero once `pos` reaches 64, so positions of 64 or
   * more are never set: setting or clearing one leaves the value alone.
   */

  /** The single-bit mask `1 << pos`, zero when `pos` is 64 or more. */
  function Bit(pos: bv64): (b: bv64)
    ensures pos < 64 <==> b != 0
  {
    if pos < 64 then 1 << pos else 0
  }

  /** True when bit `pos` of `value` is set. */
  function HasBit(value: bv64, pos: bv64): (r: bool)
    ensures r ==> pos < 64
  {
    value & Bit(pos) != 0
  }

  /** Sets bit `pos` and leaves every other bit alone. */
  function SetBit(value: bv64, pos: bv64): (r: bv64)
    ensures HasBit(r, pos) <==> pos < 64
    ensures forall q: bv64 :: q != pos ==> HasBit(r, q) == HasBit(value, q)
  {
    OrSetsBit(value, Bit(pos), pos);
    OrKeepsOtherBits(value, Bit(pos), pos);
    value | Bit(pos)
  }

  /** Clears bit `pos` and leaves every other bit alone. */
  function ClearBit(value: bv64, pos: bv64): (r: bv64)
    ensures !HasBit(r, pos)
    ensures forall q: bv64 :: q != pos ==> HasBit(r, q) == HasBit(value, q)
  {
    AndNotClearsBit(value, Bit(pos), pos);
    AndNotKeepsOtherBits(value, Bit(pos), pos);
    value & !Bit(pos)
  }

  // The bit arithmetic behind SetBit and ClearBit, one fact per lemma.

  lemma OrSetsBit(value: bv64, mask: bv64, pos: bv64)
    requires mask == Bit(pos)
    ensures HasBit(value | mask, pos) <==> pos < 64
  {
  }

  lemma OrKeepsOtherBits(value: bv64, mask: bv64, pos: bv64)
    requires mask == Bit(pos)
    ensures forall q: bv64 :: q != pos ==> HasBit(value | mask, q) == HasBit(value, q)
  {
  }

  lemma AndNotClearsBit(value: bv64, mask: bv64, pos: bv64)
    requires mask == Bit(pos)
    ensures !HasBit(value & !mask, pos)
  {
  }

  lemma AndNotKeepsOtherBits(value: bv64, mask: bv64, pos: bv64)
    requires mask == Bit(pos)
    ensures forall q: bv64 :: q != pos ==> HasBit(value & !mask, q) == HasBit(value, q)
  {
  }

  /** The decoded form of a P-state register, without the floating-point ratio and vcore. */
  datatype PState = Disabled | Enabled(fid: bv64, did: bv64, vid: bv64)

  /** The field extraction of the report: Disabled unless bit 63 is set. */
  function Decode(value: bv64): (p: PState)
    ensures p.Disabled? <==> !HasBit(value, EnabledBit)
    ensures p.Enabled? ==> p.fid <= 0xff && p.did <= 0x3f && p.vid <= 0xff
  {
    if HasBit(value, EnabledBit) then
      Enabled(FidOf(value), DidOf(value), VidOf(value))
    else
      Disabled
  }

  /*
   * Properties of the setters.
   */

  // A register value is determined by one field and the bits outside it.

  lemma FidAndRestDetermine(a: bv64, b: bv64)
    requires FidOf(a) == FidOf(b) && SameOutside(a, b, FidMask)
    ensures a == b
  {
  }

  lemma DidAndRestDetermine(a: bv64, b: bv64)
    requires DidOf(a) == DidOf(b) && SameOutside(a, b, DidMask)
    ensures a == b
  {
  }

  lemma VidAndRestDetermine(a: bv64, b: bv64)
    requires VidOf(a) == VidOf(b) && SameOutside(a, b, VidMask)
    ensures a == b
  {
  }

  /** Setting FID twice to the same in-range value is the same as setting it once. */
  lemma SetFidIdempotent(msr: bv64, fid: bv64)
    requires fid <= 0xff
    ensures SetFid(SetFid(msr, fid), fid) == SetFid(msr, fid)
  {
    FidAndRestDetermine(SetFid(SetFid(msr, fid), fid), SetFid(msr, fid));
  }

  /** Setting DID twice to the same in-range value is the same as setting it once. */
  lemma SetDidIdempotent(msr: bv64, did: bv64)
    requires did <= 0x3f
    ensures SetDid(SetDid(msr, did), did) == SetDid(msr, did)
  {
    DidAndRestDetermine(SetDid(SetDid(msr, did), did), SetDid(msr, did));
  }

  /** Setting VID twice to the same in-range value is the same as setting it once. */
  lemma SetVidIdempotent(msr: bv64, vid: bv64)
    requires vid <= 0xff
    ensures SetVid(SetVid(msr, vid), vid) == SetVid(msr, vid)
  {
    VidAndRestDetermine(SetVid(SetVid(msr, vid), vid), SetVid(msr, vid));
  }

  /** Writing back the current FID leaves the register value as it is. */
  lemma SetFidCurrent(msr: bv64)
    ensures SetFid(msr, FidOf(msr)) == msr
  {
    FidAndRestDetermine(SetFid(msr, FidOf(msr)), msr);
  }

  /** Writing back the current DID leaves the register value as it is. */
  lemma SetDidCurrent(msr: bv64)
    ensures SetDid(msr, DidOf(msr)) == msr
  {
    DidAndRestDetermine(SetDid(msr, DidOf(msr)), msr);
  }

  /** Writing back the current VID leaves the register value as it is. */
  lemma SetVidCurrent(msr: bv64)
    ensures SetVid(msr, VidOf(msr)) == msr
  {
    VidAndRestDetermine(SetVid(msr, VidOf(msr)), msr);
  }

  /** After an in-range SetFid, Decode reports the new FID and the old enabled flag, DID and VID. */
  lemma DecodeSetFid(msr: bv64, fid: bv64)
    requires fid <= 0xff
    ensures Decode(SetFid(msr, fid)) ==
              if Decode(msr).Enabled? then Enabled(fid, DidOf(msr), VidOf(msr)) else Disabled
  {
  }

  /** After an in-range SetDid, Decode reports the new DID and the old enabled flag, FID and VID. */
  lemma DecodeSetDid(msr: bv64, did: bv64)
    requires did <= 0x3f
    ensures Decode(SetDid(msr, did)) ==
              if Decode(msr).Enabled? then Enabled(FidOf(msr), did, VidOf(msr)) else Disabled
  {
  }

  /** After an in-range SetVid, Decode reports the new VID and the old enabled flag, FID and DID. */
  lemma DecodeSetVid(msr: bv64, vid: bv64)
    requires vid <= 0xff
    ensures Decode(SetVid(msr, vid)) ==
              if Decode(msr).Enabled? then Enabled(FidOf(msr), DidOf(msr), vid) else Disabled
  {
  }

  /** Setting FID 0xA0 on an enabled P-state replaces only the low byte. */
  lemma SetFidExample()
    ensures SetFid(0x8000_0000_0000_A008, 0xA0) == 0x8000_0000_0000_A0A0
    ensures Decode(0x8000_0000_0000_A008) == Enabled(0x08, 0x20, 0x2)
    ensures Decode(0x8000_0000_0000_A0A0) == Enabled(0xA0, 0x20, 0x2)
  {
  }

  /** An FID too wide for its field carries into DID: 0x1A0 gives FID 0xA0 and adds 1 to DID. */
  lemma SetFidCarriesIntoDid()
    ensures Decode(SetFid(0x8000_0000_0000_0000, 0x1A0)) == Enabled(0xA0, 1, 0)
  {
  }

  /** A VID too wide for its field can carry out of bit 63 and leave the P-state disabled. */
  lemma SetVidCanDisable()
    ensures Decode(0x8000_0000_0000_0000) == Enabled(0, 0, 0)
    ensures Decode(SetVid(0x8000_0000_0000_0000, 0x2_0000_0000_0000)) == Disabled
  {
  }

  /*
   * Properties of the bit helpers.
   */

  /** Setting bit 63 enables a P-state and exposes the fields already present. */
  lemma DecodeSetEnabled(value: bv64)
    ensures Decode(SetBit(value, EnabledBit)) == Enabled(FidOf(value), DidOf(value), VidOf(value))
  {
  }

  /** Clearing a set bit and setting it again restores the value. */
  lemma SetBitAfterClearBit(value: bv64, pos: bv64)
    requires HasBit(value, pos)
    ensures SetBit(ClearBit(value, pos), pos) == value
  {
  }

  /** Setting a clear bit and clearing it again restores the value. */
  lemma ClearBitAfterSetBit(value: bv64, pos: bv64)
    requires !HasBit(value, pos)
    ensures ClearBit(SetBit(value, pos), pos) == value
  {
  }
}
