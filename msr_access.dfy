/**
 * Access to the per-core MSR devices and the set path of the command line
 * tool: read a P-state from core 0, compute the requested value, and when it
 * differs broadcast it to the same register on cores 0..15.
 *
 * The device files are abstracted as an in-memory map from core index to
 * that core's register file (MSR address to value). A core missing from the
 * map stands for a device file that cannot be opened; an address missing
 * from a core's file stands for a read or write at that offset that fails.
 * Both make the program panic, which the model reports as a failure outcome.
 */
module MsrAccess {
  import opened MsrCodec
  import opened LittleEndian

  /** The eight P-state register addresses, slot 0 first. */
  const PStates: seq<int> :=
    [0xC001_0064, 0xC001_0065, 0xC001_0066, 0xC001_0067,
     0xC001_0068, 0xC001_0069, 0xC001_006A, 0xC001_006B]

  /** There are eight P-state slots at consecutive addresses from 0xC001_0064. */
  lemma PStateAddresses()
    ensures |PStates| == 8
    ensures forall i :: 0 <= i < |PStates| ==> PStates[i] == 0xC001_0064 + i
  {
  }

  /** The number of cores a write is broadcast to. */
  const NumCores: nat := 16

  /** Per-core register files: core index to (MSR address to value). */
  type Registers = map<int, map<int, bv64>>

  datatype Option<T> = None | Some(value: T)

  /** True when register `msr` of core `core` can be read and written. */
  predicate Accessible(regs: Registers, core: int, msr: int)
  {
    core in regs && msr in regs[core]
  }

  /**
   * The register files after `v` is written at `msr` on cores 0..n-1, one
   * core after the other in increasing order. Every other (core, address)
   * entry keeps its value, and no entry appears or disappears.
   */
  function WriteCores(regs: Registers, msr: int, v: bv64, n: nat): (r: Registers)
    requires forall c :: 0 <= c < n ==> Accessible(regs, c, msr)
    ensures r.Keys == regs.Keys
    ensures forall c :: c in r ==> r[c].Keys == regs[c].Keys
    ensures forall c, a :: c in r && a in r[c] ==>
              r[c][a] == if 0 <= c < n && a == msr then v else regs[c][a]
    decreases n
  {
    if n == 0 then regs
    else
      assert Accessible(regs, n - 1, msr);
      var before := WriteCores(regs, msr, v, n - 1);
      before[n - 1 := before[n - 1][msr := v]]
  }

  /**
   * How far a broadcast write at `msr` that has reached core `from` gets:
   * the first core from `from` whose register cannot be written, or
   * NumCores when every remaining core can be written.
   */
  function CoresReached(regs: Registers, msr: int, from: nat): (k: nat)
    requires from <= NumCores
    ensures from <= k <= NumCores
    ensures forall c :: from <= c < k ==> Accessible(regs, c, msr)
    ensures k < NumCores ==> !Accessible(regs, k, msr)
    decreases NumCores - from
  {
    if from == NumCores || !Accessible(regs, from, msr) then from
    else CoresReached(regs, msr, from + 1)
  }

  /** After a broadcast that reached every core, every core holds the value at `msr`. */
  lemma BroadcastReachesAll(regs: Registers, msr: int, v: bv64)
    requires forall c :: 0 <= c < NumCores ==> Accessible(regs, c, msr)
    ensures var r := WriteCores(regs, msr, v, NumCores);
            forall c :: 0 <= c < NumCores ==> Accessible(r, c, msr) && r[c][msr] == v
  {
    var r := WriteCores(regs, msr, v, NumCores);
    forall c | 0 <= c < NumCores
      ensures Accessible(r, c, msr) && r[c][msr] == v
    {
      assert Accessible(regs, c, msr);
    }
  }

  /**
   * A broadcast that stops at core k < NumCores leaves the new value on cores
   * 0..k-1 and the old value on core k and every core after it.
   */
  lemma BroadcastStopsAtFailure(regs: Registers, msr: int, v: bv64)
    requires CoresReached(regs, msr, 0) < NumCores
    ensures var k := CoresReached(regs, msr, 0);
            var r := WriteCores(regs, msr, v, k);
            !Accessible(regs, k, msr) &&
            (forall c :: 0 <= c < k ==> Accessible(r, c, msr) && r[c][msr] == v) &&
            (forall c, a :: c in regs && a in regs[c] && (c >= k || a != msr) ==>
               c in r && a in r[c] && r[c][a] == regs[c][a])
  {
    var k := CoresReached(regs, msr, 0);
    var r := WriteCores(regs, msr, v, k);
    forall c | 0 <= c < k
      ensures Accessible(r, c, msr) && r[c][msr] == v
    {
      assert Accessible(regs, c, msr);
    }
  }

  /**
   * The value the set path computes from the value read and the requested
   * fields (zero meaning "not requested"). Every setter starts from the value
   * read, not from the previous setter's result, so only the last requested
   * field of FID, DID, VID takes effect and earlier requests are dropped.
   */
  function RequestedMsr(current: bv64, fid: bv64, did: bv64, vid: bv64): (r: bv64)
    ensures fid == 0 && did == 0 && vid == 0 ==> r == current
    ensures 0 < vid <= 0xff ==>
              VidOf(r) == vid && SameOutside(r, current, VidMask)
    ensures vid == 0 && 0 < did <= 0x3f ==>
              DidOf(r) == did && SameOutside(r, current, DidMask)
    ensures vid == 0 && did == 0 && 0 < fid <= 0xff ==>
              FidOf(r) == fid && SameOutside(r, current, FidMask)
  {
    if vid > 0 then SetVid(current, vid)
    else if did > 0 then SetDid(current, did)
    else if fid > 0 then SetFid(current, fid)
    else current
  }

  /**
   * The step-by-step update of the set path: each requested field (non-zero)
   * overwrites the running value with a setter applied to the value read.
   */
  method NewMsrValue(msrValue: bv64, fid: bv64, did: bv64, vid: bv64) returns (newMsr: bv64)
    ensures newMsr == RequestedMsr(msrValue, fid, did, vid)
  {
    newMsr := msrValue;
    if fid > 0 {
      newMsr := SetFid(msrValue, fid);
    }
    if did > 0 {
      newMsr := SetDid(msrValue, did);
    }
    if vid > 0 {
      newMsr := SetVid(msrValue, vid);
    }
  }

  /**
   * A request whose every non-zero field equals the field already present
   * computes the value read, so the set path writes nothing.
   */
  lemma RequestOfCurrentFieldsIsUnchanged(current: bv64, fid: bv64, did: bv64, vid: bv64)
    requires fid == 0 || fid == FidOf(current)
    requires did == 0 || did == DidOf(current)
    requires vid == 0 || vid == VidOf(current)
    ensures RequestedMsr(current, fid, did, vid) == current
  {
    if vid > 0 {
      SetVidCurrent(current);
    } else if did > 0 {
      SetDidCurrent(current);
    } else if fid > 0 {
      SetFidCurrent(current);
    }
  }

  /** With a VID requested, the requested FID and DID are ignored: both keep their current value. */
  lemma VidRequestDropsFidAndDid(current: bv64, fid: bv64, did: bv64, vid: bv64)
    requires vid > 0
    ensures FidOf(RequestedMsr(current, fid, did, vid)) == FidOf(current)
    ensures DidOf(RequestedMsr(current, fid, did, vid)) == DidOf(current)
  {
  }

  /** With a DID (and no VID) requested, the requested FID is ignored. */
  lemma DidRequestDropsFid(current: bv64, fid: bv64, did: bv64)
    requires did > 0
    ensures FidOf(RequestedMsr(current, fid, did, 0)) == FidOf(current)
  {
  }

  /** What a broadcast write did: every core written, or stopped at a core. */
  datatype WriteOutcome = AllWritten | FailedAt(core: nat)

  /** What the set path did. */
  datatype Report =
    | NotRequested                            // no P-state slot given
    | ReadFailed(msr: int)                    // reading core 0 failed
    | Unchanged(current: bv64)                // computed value equals the value read
    | SlotOutOfRange(slot: int)               // slot index past the last P-state
    | WriteFailed(core: nat)                  // broadcast stopped at this core
    | Changed(current: bv64, readback: bv64)  // written to every core, then read back

  /** The MSR device files of all cores. */
  class MsrDevices {
    var regs: Registers

    constructor (initial: Registers)
      ensures regs == initial
    {
      regs := initial;
    }

    /**
     * Reads register `msr` of core 0: the device yields the 8-byte
     * little-endian form of the value it holds, which `Uint64` decodes.
     */
    method ReadMsr(msr: int) returns (r: Option<bv64>)
      ensures r.Some? <==> Accessible(regs, 0, msr)
      ensures r.Some? ==> r.value == regs[0][msr]
    {
      if 0 in regs && msr in regs[0] {
        var bytes := PutUint64(regs[0][msr]);
        DecodeEncode(regs[0][msr]);
        r := Some(Uint64(bytes));
      } else {
        r := None;
      }
    }

    /**
     * Writes the 8-byte little-endian form of `value` at `msr` on one core;
     * fails, changing nothing, when that register cannot be written.
     */
    method WriteCoreMsr(core: int, msr: int, value: bv64) returns (ok: bool)
      modifies this
      ensures ok == Accessible(old(regs), core, msr)
      ensures regs == if ok then old(regs)[core := old(regs)[core][msr := value]] else old(regs)
    {
      if !(core in regs && msr in regs[core]) {
        return false;
      }
      var bytes := PutUint64(value);
      DecodeEncode(value);
      regs := regs[core := regs[core][msr := Uint64(bytes)]];
      ok := true;
    }

    /**
     * Writes the 8-byte little-endian form of `value` at `msr` on cores
     * 0..NumCores-1 in increasing order, stopping at the first core that
     * cannot be written; the cores before it keep the new value.
     */
    method WriteMsr(msr: int, value: bv64) returns (out: WriteOutcome)
      modifies this
      ensures var k := CoresReached(old(regs), msr, 0);
              regs == WriteCores(old(regs), msr, value, k) &&
              out == if k == NumCores then AllWritten else FailedAt(k)
    {
      var i := 0;
      while i < NumCores
        invariant 0 <= i <= NumCores
        invariant forall c :: 0 <= c < i ==> Accessible(old(regs), c, msr)
        invariant CoresReached(old(regs), msr, 0) == CoresReached(old(regs), msr, i)
        invariant regs == WriteCores(old(regs), msr, value, i)
      {
        var ok := WriteCoreMsr(i, msr, value);
        if !ok {
          return FailedAt(i);
        }
        assert WriteCores(old(regs), msr, value, i + 1) == regs;
        i := i + 1;
      }
      out := AllWritten;
    }

    /**
     * The set path: with a slot given, read the P-state of core 0 at slot
     * 0's address (whatever the slot), apply the requested fields, and when
     * the value changes broadcast it to the slot's register and read it back.
     */
    method SetPState(slot: int, fid: bv64, did: bv64, vid: bv64) returns (report: Report)
      modifies this
      ensures slot < 0 ==> report == NotRequested && regs == old(regs)
      ensures slot >= 0 && !Accessible(old(regs), 0, PStates[0]) ==>
                report == ReadFailed(PStates[0]) && regs == old(regs)
      ensures slot >= 0 && Accessible(old(regs), 0, PStates[0]) ==>
                var current := old(regs)[0][PStates[0]];
                var updated := RequestedMsr(current, fid, did, vid);
                if updated == current then
                  report == Unchanged(current) && regs == old(regs)
                else if slot >= |PStates| then
                  report == SlotOutOfRange(slot) && regs == old(regs)
                else
                  var k := CoresReached(old(regs), PStates[slot], 0);
                  regs == WriteCores(old(regs), PStates[slot], updated, k) &&
                  report == if k == NumCores then Changed(current, updated) else WriteFailed(k)
    {
      if slot < 0 {
        return NotRequested;
      }
      var read := ReadMsr(PStates[0]);
      if read.None? {
        return ReadFailed(PStates[0]);
      }
      var msrValue := read.value;
      var newMsr := NewMsrValue(msrValue, fid, did, vid);
      if newMsr == msrValue {
        return Unchanged(msrValue);
      }
      if slot >= |PStates| {
        return SlotOutOfRange(slot);
      }
      var target := PStates[slot];
      var written := WriteMsr(target, newMsr);
      if written.FailedAt? {
        return WriteFailed(written.core);
      }
      var readback := ReadMsr(target);
      if readback.None? {
        return ReadFailed(target);
      }
      report := Changed(msrValue, readback.value);
    }
  }
}
