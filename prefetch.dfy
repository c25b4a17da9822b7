/**
 * Prefetcher control: disablePrefetchers looks the running CPU's model ID up
 * in a fixed allow-list of eleven Intel microarchitectures and, on a match,
 * sets the four prefetcher-disable bits in the low half of the prefetch
 * control MSR with a read-modify-write.
 *
 * The model-ID constants, the MODEL_ID extraction and the four MSR masks are
 * defined in headers outside this model; they are kept abstract, as record
 * fields and a function parameter, and no property depends on their values.
 */
module Prefetch {
  import opened MachineWord

  datatype Option<T> = None | Some(value: T)

  /** The model IDs of the supported microarchitectures. */
  datatype CpuModels = CpuModels(
    broadwell: Word, haswell: Word, ivyBridge: Word,
    sandyBridge1: Word, sandyBridge2: Word,
    westmere1: Word, westmere2: Word, westmere3: Word,
    nehalem1: Word, nehalem2: Word, nehalem3: Word)

  /** IA32_PREFETCHER_MSR_L2, _L2_ADJACENT, _DCU and _DCU_IP. */
  datatype PrefetcherMasks = PrefetcherMasks(l2: bv32, l2Adjacent: bv32, dcu: bv32, dcuIp: bv32)

  /** The allow-list valid_models, in the order it is scanned. */
  function ValidModels(m: CpuModels): seq<Word>
  {
    [m.broadwell, m.haswell, m.ivyBridge,
     m.sandyBridge1, m.sandyBridge2, m.westmere1, m.westmere2,
     m.westmere3, m.nehalem1, m.nehalem2, m.nehalem3]
  }

  /** Every bit that disablePrefetchers sets. */
  function DisableBits(k: PrefetcherMasks): bv32
  {
    k.l2 | k.l2Adjacent | k.dcu | k.dcuIp
  }

  /** x86_rdmsr_low: bits 0..31 of the MSR. */
  function LowHalf(x: bv64): bv32
  {
    (x & 0xFFFF_FFFF) as bv32
  }

  /** x86_rdmsr_high: bits 32..63 of the MSR. */
  function HighHalf(x: bv64): bv32
  {
    (x >> 32) as bv32
  }

  /** ((uint64_t)high) << 32 | low. */
  function Join(high: bv32, low: bv32): bv64
  {
    ((high as bv64) << 32) | (low as bv64)
  }

  /**
   * disablePrefetchers. `versionInfo` is what x86_cpuid_eax(0x1, 0x0)
   * returns, `modelIdOf` is MODEL_ID and `msr` is the current value of the
   * prefetch control MSR. `written` is the value passed to x86_wrmsr, if the
   * write happens.
   */
  method DisablePrefetchers(models: CpuModels, masks: PrefetcherMasks, modelIdOf: Word -> Word,
                            versionInfo: Word, msr: bv64)
    returns (supported: bool, written: Option<bv64>)
    ensures supported <==> modelIdOf(versionInfo) in ValidModels(models)
    ensures !supported ==> written == None
    ensures supported ==> written == Some(msr | (DisableBits(masks) as bv64))
  {
    var validModels := ValidModels(models);
    var modelId := modelIdOf(versionInfo);
    var i := 0;
    while i < |validModels|
      invariant 0 <= i <= |validModels|
      invariant modelId !in validModels[..i]
    {
      if modelId == validModels[i] {
        var low := LowHalf(msr);
        var high := HighHalf(msr);

        low := low | masks.l2;
        low := low | masks.l2Adjacent;
        low := low | masks.dcu;
        low := low | masks.dcuIp;

        assert Join(high, low) == msr | (DisableBits(masks) as bv64) by {
          ReadModifyWrite(msr, masks);
        }
        return true, Some(Join(high, low));
      }
      i := i + 1;
    }
    assert validModels[..i] == validModels;
    return false, None;
  }

  /** The C's read-modify-write of the two halves sets the four bits in the MSR. */
  lemma ReadModifyWrite(msr: bv64, masks: PrefetcherMasks)
    ensures Join(HighHalf(msr), LowHalf(msr) | masks.l2 | masks.l2Adjacent | masks.dcu | masks.dcuIp)
            == msr | (DisableBits(masks) as bv64)
  {
    var low := LowHalf(msr) | masks.l2 | masks.l2Adjacent | masks.dcu | masks.dcuIp;
    assert low == LowHalf(msr) | DisableBits(masks);
    JoinSetLow(msr, DisableBits(masks));
  }

  /** Writing back the two halves of a value reads as setting bits in its low half. */
  lemma JoinSetLow(x: bv64, bits: bv32)
    ensures Join(HighHalf(x), LowHalf(x) | bits) == x | (bits as bv64)
  {
  }

  /** Splitting into halves and joining them back are inverse. */
  lemma HalvesRoundTrip(x: bv64, high: bv32, low: bv32)
    ensures Join(HighHalf(x), LowHalf(x)) == x
    ensures HighHalf(Join(high, low)) == high && LowHalf(Join(high, low)) == low
  {
  }

  /** The value written keeps the high half that was read. */
  lemma WrittenKeepsHighHalf(masks: PrefetcherMasks, msr: bv64)
    ensures HighHalf(msr | (DisableBits(masks) as bv64)) == HighHalf(msr)
  {
    var bits := DisableBits(masks);
    JoinSetLow(msr, bits);
    HalvesRoundTrip(msr, HighHalf(msr), LowHalf(msr) | bits);
  }

  /** The low half written is the low half read with the four bits set. */
  lemma WrittenLowHalf(masks: PrefetcherMasks, msr: bv64)
    ensures LowHalf(msr | (DisableBits(masks) as bv64)) == LowHalf(msr) | DisableBits(masks)
  {
  }

  /** No bit set in the MSR before the write is clear after it. */
  lemma WrittenClearsNothing(masks: PrefetcherMasks, msr: bv64)
    ensures (msr | (DisableBits(masks) as bv64)) & msr == msr
  {
  }

  /** Run again on the value it wrote, disablePrefetchers writes that same value. */
  lemma DisableIdempotent(masks: PrefetcherMasks, msr: bv64)
    ensures var w := msr | (DisableBits(masks) as bv64);
            w | (DisableBits(masks) as bv64) == w
  {
  }
}
