# AMD P-state MSR codec and set path, in Dafny

This project models the core of a small command-line tool that reads and
overrides AMD P-state model-specific registers (MSRs). A P-state register
is a 64-bit value: bit 63 is the enabled flag, bits 0..7 the frequency
identifier (FID), bits 8..13 the divisor identifier (DID) and bits 14..21
the voltage identifier (VID). The tool can:

- replace one of these fields;
- set, clear and test single bits;
- decode a register into its fields;
- write a new P-state value to the same register on cores 0..15 through the
  per-core MSR device files, as 8 little-endian bytes.

Three modules follow the structure of `main.go`:

- `MsrCodec` (`msr_codec.dfy`): the field setters `SetFid`, `SetDid` and
  `SetVid`, the bit helpers `HasBit`, `SetBit` and `ClearBit`, and `Decode`,
  the field extraction of the P-state report. Values are `bv64`, so unsigned
  64-bit wrap-around is the model's own arithmetic. The setters ADD the new
  field value after clearing the field and never mask it, so a value too wide
  for its field carries into the bits above. The contracts state what a
  setter does for a value that fits, and also what it does for any value:
  the field receives the argument's low bits, and the fields below it are
  kept. `SetFidCarriesIntoDid` and `SetVidCanDisable` exhibit the carry.
- `LittleEndian` (`little_endian.dfy`): `PutUint64` and `Uint64`, the 8-byte
  little-endian encoding used by `readMSR` and `writeMSR`, with the byte
  order (`EncodeShift`) and both round trips.
- `MsrAccess` (`msr_access.dfy`): the device files as a class
  `MsrDevices`. Its field `regs` maps a core index to that core's register
  file (MSR address to value). A core missing from the map stands for a
  device file that cannot be opened. An address missing from a core's file
  stands for a read or write at that offset that fails. The program panics
  in both cases; the model returns a failure outcome instead. The module
  also holds:
  - `ReadMsr`, `WriteCoreMsr` and `WriteMsr`: the read from core 0 and the
    broadcast loop over cores 0..15;
  - `WriteCores` and `CoresReached`: the specification of that loop;
  - `SetPState`: the set path of `main`, with `RequestedMsr` specifying the
    value it computes.

The model keeps these behaviours of the code as they are written:

- The set path always reads slot 0's register (`pstates[0]`), whatever slot
  was asked for. It writes the result to the requested slot's register.
- Each requested field is applied to the value read, not to the result of
  the previous setter. So only the last requested field of FID, DID, VID
  takes effect (`RequestedMsr`, `VidRequestDropsFidAndDid`,
  `DidRequestDropsFid`).
- A write happens only when the computed value differs from the value read.
- A slot index of 8 or more is not checked before the read. It fails (an
  index out of range in Go) only once a write is about to happen. A
  negative slot means "no slot given", and nothing is done.
- A write failure on core k aborts the broadcast. Cores 0..k-1 keep the new
  value and nothing is rolled back (`BroadcastStopsAtFailure`).
- After a complete broadcast, the value is read back from core 0 and
  returned without being compared to the value written. In the model,
  where a register holds what was last written, the read-back equals the
  value written.

No other register is read or written before the broadcast: the set path
touches only `pstates[0]` on core 0 and the requested slot's register on
cores 0..15.

## Model

| member | source | states |
|---|---|---|
| `MsrCodec.SetFid` | main.go:73-75 | for fid <= 0xff the FID field becomes fid and every other bit is unchanged; for any fid the FID field is fid's low byte |
| `MsrCodec.SetDid` | main.go:77-79 | for did <= 0x3f the DID field becomes did and every bit outside 8..13 is unchanged; for any did the DID field is did's low 6 bits and FID is kept |
| `MsrCodec.SetVid` | main.go:81-83 | for vid <= 0xff the VID field becomes vid and every bit outside 14..21 is unchanged; for any vid the VID field is vid's low 8 bits and FID and DID are kept |
| `MsrCodec.SetFidIdempotent` | main.go:73-75 | setting the same in-range FID twice equals setting it once |
| `MsrCodec.SetDidIdempotent` | main.go:77-79 | setting the same in-range DID twice equals setting it once |
| `MsrCodec.SetVidIdempotent` | main.go:81-83 | setting the same in-range VID twice equals setting it once |
| `MsrCodec.SetFidCurrent` | main.go:73-75 | writing back the current FID leaves the value unchanged |
| `MsrCodec.SetDidCurrent` | main.go:77-79 | writing back the current DID leaves the value unchanged |
| `MsrCodec.SetVidCurrent` | main.go:81-83 | writing back the current VID leaves the value unchanged |
| `MsrCodec.DecodeSetFid` | main.go:73-75 | after an in-range SetFid the decode shows the new FID, and the old enabled flag, DID and VID |
| `MsrCodec.DecodeSetDid` | main.go:77-79 | after an in-range SetDid the decode shows the new DID, and the old enabled flag, FID and VID |
| `MsrCodec.DecodeSetVid` | main.go:81-83 | after an in-range SetVid the decode shows the new VID, and the old enabled flag, FID and DID |
| `MsrCodec.SetFidExample` | main.go:73-75 | FID 0xA0 on 0x8000_0000_0000_A008 gives 0x8000_0000_0000_A0A0; only the FID in the decode changes |
| `MsrCodec.SetFidCarriesIntoDid` | main.go:73-75 | an FID of 0x1A0 sets FID 0xA0 and carries 1 into DID |
| `MsrCodec.SetVidCanDisable` | main.go:81-83 | a VID of 2^49 carries out of bit 63 and turns an enabled P-state into a disabled one |
| `MsrCodec.Bit` | main.go:134 | the mask `1 << pos` is non-zero exactly when pos < 64 |
| `MsrCodec.HasBit` | main.go:133-135 | no bit at a position of 64 or more is ever reported set |
| `MsrCodec.SetBit` | main.go:137-139 | afterwards bit pos is set exactly when pos < 64; every other bit keeps its value |
| `MsrCodec.ClearBit` | main.go:141-143 | afterwards bit pos is clear; every other bit keeps its value |
| `MsrCodec.SetBitAfterClearBit` | main.go:137-143 | clearing a set bit and setting it again restores the value |
| `MsrCodec.ClearBitAfterSetBit` | main.go:137-143 | setting a clear bit and clearing it again restores the value |
| `MsrCodec.FidOf` | main.go:119-120 | the FID fits 8 bits, and the value is the bits outside bits 0..7 ORed with the FID |
| `MsrCodec.DidOf` | main.go:121-122 | the DID fits 6 bits, and the value is the bits outside bits 8..13 ORed with the DID shifted to bit 8 |
| `MsrCodec.VidOf` | main.go:123-124 | the VID fits 8 bits, and the value is the bits outside bits 14..21 ORed with the VID shifted to bit 14 |
| `MsrCodec.Decode` | main.go:116-131 | Disabled exactly when bit 63 is clear, whatever the other bits; otherwise fid <= 0xff, did <= 0x3f, vid <= 0xff |
| `MsrCodec.DecodeSetEnabled` | main.go:116-124 | setting bit 63 makes the decode Enabled with the FID, DID and VID already in the value |
| `LittleEndian.PutUint64` | main.go:106-107 | the encoding of a register value is 8 bytes, the low byte first |
| `LittleEndian.Uint64` | main.go:92-97 | the value decoded from 8 bytes is the one whose encoding is exactly those bytes |
| `LittleEndian.EncodeShift` | main.go:106-107 | little-endian order: byte 0 is the low byte and bytes 1..7 are the encoding of the value shifted right by 8, so byte i holds bits 8i..8i+7 |
| `LittleEndian.DecodeEncode` | main.go:97 | decoding the 8 little-endian bytes of a value gives the value back |
| `LittleEndian.EncodeDecode` | main.go:97 | encoding a decoded 8-byte string gives the same bytes back |
| `MsrAccess.RequestedMsr` | main.go:52-65 | no field requested gives the value read; otherwise for a value that fits its field, only the last requested field (VID, else DID, else FID) is replaced and all other bits are those of the value read |
| `MsrAccess.NewMsrValue` | main.go:52-65 | the step-by-step update of `newMSR` computes `RequestedMsr` |
| `MsrAccess.RequestOfCurrentFieldsIsUnchanged` | main.go:54-66 | a request whose non-zero fields equal the current ones computes the value read, so nothing is written |
| `MsrAccess.VidRequestDropsFidAndDid` | main.go:54-65 | with a VID requested, FID and DID keep their current values whatever was requested for them |
| `MsrAccess.DidRequestDropsFid` | main.go:54-61 | with a DID and no VID requested, FID keeps its current value whatever was requested |
| `MsrAccess.PStateAddresses` | main.go:15-24 | the eight P-state registers are at consecutive addresses 0xC0010064..0xC001006B, slot i at 0xC0010064 + i |
| `MsrAccess.WriteCores` | main.go:100-114 | writing cores 0..n-1 in turn puts v at msr on exactly those cores, keeps every other entry and adds or removes none |
| `MsrAccess.CoresReached` | main.go:101-112 | the broadcast gets as far as the first core whose register cannot be written, or all 16 cores |
| `MsrAccess.BroadcastReachesAll` | main.go:100-114 | after a broadcast that reached every core, cores 0..15 all hold the value |
| `MsrAccess.BroadcastStopsAtFailure` | main.go:100-114 | a broadcast stopped at core k leaves the new value on cores 0..k-1 and the old entries everywhere else |
| `MsrAccess.MsrDevices.ReadMsr` | main.go:85-98 | succeeds exactly when core 0's register exists, and then returns its value |
| `MsrAccess.MsrDevices.WriteCoreMsr` | main.go:102-112 | one core's write succeeds exactly when its register exists, and then sets that register and nothing else |
| `MsrAccess.MsrDevices.WriteMsr` | main.go:100-114 | the register files become `WriteCores` up to `CoresReached`; the outcome names the core where the broadcast stopped |
| `MsrAccess.MsrDevices.SetPState` | main.go:50-70 | no slot: nothing; failed read: nothing written; unchanged value: nothing written; slot >= 8: nothing written; otherwise the value computed from slot 0 is broadcast to the slot's register and read back |

## Left out

- The device files themselves (`os.Open`, `os.OpenFile`, `ReadAt`, `WriteAt`, `f.Close`) are operating-system I/O. They are replaced by the in-memory register map. A failed open or a failed read or write is an absent core or address.
- The `panic` on an I/O failure becomes a failure outcome (`ReadFailed`, `WriteFailed`) that ends the set path. So does the index-out-of-range panic (`SlotOutOfRange`).
- Command-line flag parsing (`initFlags` and the global flag variables) is left out. The slot and the requested FID, DID and VID are parameters of `SetPState`.
- The `-l` listing loop only reads each P-state and prints its report, so it is left out.
- The floating-point ratio and core voltage, and the `Sprintf` formatting of the report, are floating point and text. `Decode` keeps only the enabled flag and the three fields.
- All console output (`fmt.Println`, `fmt.Printf`) is left out.
- The device is assumed to store every written value exactly and to return it on the next read: no reserved-bit masking, no rejection of a value, no change by the hardware in between. A write fails only for a missing core or address. The register map holds values, not bytes; each read and write goes through the 8-byte form, whose round trips make that transparent.
- Concurrent runs of the tool against the same registers are not modelled. The model is sequential, as the program is.
