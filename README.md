# x86 cache maintenance and prefetcher control, modelled in Dafny

This project models the three routines of the ia32 kernel's machine layer
(`src/arch/x86/machine/hardware.c`) that carry real logic:

- **getCacheLineSizeBits** turns the cache-line size reported by the hardware
  (bytes) into its log2 exponent. It returns the sentinel 0 when the size is 0
  or not a power of two. That sentinel is also the right answer for a 1-byte
  line, so a result of 0 alone does not tell success from failure. The model
  states this outright.
- **flushCacheRange** issues a memory fence, then flushes every cache line
  that overlaps `[vaddr, vaddr + 2^size_bits)`, walking up from `vaddr`
  rounded down to the line size. Then it issues a second fence.
- **disablePrefetchers** looks `MODEL_ID(cpuid eax)` up in a fixed
  eleven-entry allow-list. On a match it reads the prefetch-control MSR as two
  32-bit halves, ORs four disable bits into the low half, writes the value
  back and returns true. Otherwise it returns false and writes nothing.

Modules, one per concern:

- `MachineWord` (`machine_word.dfy`): 32-bit words (`Word`). It also holds
  `Pow2`, which is `BIT`, plus `IsAligned` and `RoundDown`, which are
  `IS_ALIGNED` and `ROUND_DOWN`, and arithmetic lemmas about them.
- `CacheGeometry` (`cache_geometry.dfy`): the resolver, a method with the
  C's shift loop.
- `CacheFlush` (`cache_flush.dfy`): the flush walk. The hardware `x86_mfence`
  and `flushCacheLine` calls become `Event`s in a returned trace. The trace is
  proved equal to `FlushTrace`, a closed-form definition of the intended
  events, and the lemmas state ordering, alignment, coverage and count about
  `FlushTrace`.
- `Prefetch` (`prefetch.dfy`): the allow-list scan and the MSR
  read-modify-write.

Hardware inputs become parameters:

- the value of `getCacheLineSize()`;
- the global `x86KScacheLineSizeBits` (`lineBits`);
- `x86_cpuid_eax(1, 0)` (`versionInfo`);
- the current MSR value.

The MSR write becomes an `Option<bv64>` result.

The C does `line_size & 1` and `line_size >>= 1` on an unsigned value. The
model writes these as `% 2` and `/ 2`, which agree with them on unsigned
values. The additions in `flushCacheRange` wrap modulo 2^32, and the model
writes that wrap out (`WrappedEnd`, `WrappedNext`).

Two behaviours of the code are worth spelling out; the model follows the
code:

- A 64-byte range starting mid-line at address 100 fails the C's
  `IS_ALIGNED` assert, so `flushCacheRange` must not be called on it.
  `FlushTrace` is defined for it anyway, and `MidLineRange` shows it flushes
  the lines at 64 and 128.
- The allow-list is scanned linearly and the first match wins. Only
  membership matters, so the result equals a set lookup.

## Model

| member | source | states |
|---|---|---|
| `MachineWord.RoundDown` | src/arch/x86/machine/hardware.c:78 | `ROUND_DOWN(vaddr, bits)` is aligned, is at most `vaddr`, and is less than one line below it |
| `MachineWord.AlignedBelowRoundDown` | src/arch/x86/machine/hardware.c:78 | every aligned value at or below `x` is at or below `RoundDown(x)`, so `RoundDown` is the greatest aligned value not above `x` |
| `MachineWord.Pow2BelowWordSize` | src/arch/x86/machine/hardware.c:73 | `BIT(k)` is a 32-bit value exactly when `k < WORD_BITS`, the bound the assert puts on `size_bits` |
| `CacheGeometry.GetCacheLineSizeBits` | src/arch/x86/machine/hardware.c:40-65 | the result is always below 32. A zero size returns 0 without entering the loop. The shift count is the number of trailing zero bits. A size `2^k` returns exactly `k` after exactly `k` shifts. Any size that is not a power of two returns 0. A result of 0 therefore means "size 1" or "invalid size" |
| `CacheGeometry.ShiftOutZero` | src/arch/x86/machine/hardware.c:54-57 | one loop iteration keeps `original == line_size * 2^n` |
| `CacheGeometry.OddMultipleOfPow2` | src/arch/x86/machine/hardware.c:59-62 | when the loop stops on an odd residue that is not 1, the original size is not a power of two |
| `CacheGeometry.ExponentSizeIsWord` | src/arch/x86/machine/hardware.c:43-46 | every exponent below 32 names a power-of-two size that fits the `uint32_t` line size, so the exact-`k` clause covers all 32 exponents |
| `CacheFlush.FlushCacheRange` | src/arch/x86/machine/hardware.c:69-84 | the C loop with its wrapping 32-bit bound and step. Under the C's asserts and `BelowTopLine`, the events it issues are exactly `FlushTrace` |
| `CacheFlush.FlushCacheRangeWide` | src/arch/x86/machine/hardware.c:69-84 | the same loop with the bound and step computed without wrap-around. Under only the C's asserts, it issues exactly `FlushTrace` |
| `CacheFlush.LineIndexBelowEnd` | src/arch/x86/machine/hardware.c:78-79 | the k-th line from the rounded-down start passes the loop test exactly when k is below the line count |
| `CacheFlush.FencesBracketFlushes` | src/arch/x86/machine/hardware.c:76-83 | the trace begins and ends with a fence. Everything between them is a line flush, so there are no other fences. There is at least one flush |
| `CacheFlush.FlushWalk` | src/arch/x86/machine/hardware.c:78-81 | the first flush is at `vaddr` rounded down to the line size, and each later flush is one line size above the previous one |
| `CacheFlush.FlushedLineOverlaps` | src/arch/x86/machine/hardware.c:78-81 | every flushed address is line-aligned, is below `vaddr + 2^size_bits`, and starts a line that overlaps the range |
| `CacheFlush.OverlappingLineFlushed` | src/arch/x86/machine/hardware.c:78-81 | every line-aligned line that overlaps the range is flushed |
| `CacheFlush.FlushedIffOverlapping` | src/arch/x86/machine/hardware.c:78-81 | a line is flushed if and only if it overlaps `[vaddr, vaddr + 2^size_bits)` |
| `CacheFlush.EveryByteCovered` | src/arch/x86/machine/hardware.c:78-81 | every byte of the range lies in a flushed line |
| `CacheFlush.FlushCount` | src/arch/x86/machine/hardware.c:73-80 | with `vaddr` aligned to `2^size_bits`, the trace holds `LineCount` flushes plus the two fences, and `LineCount` is `2^(size_bits - lineBits)` when `size_bits >= lineBits` and exactly 1 otherwise |
| `CacheFlush.RangeEndWithinWord` | src/arch/x86/machine/hardware.c:73-74 | under the asserts, `vaddr + 2^size_bits` is at most `2^32`, so every flushed address is a 32-bit address |
| `CacheFlush.MidLineRange` | src/arch/x86/machine/hardware.c:74-81 | a 64-byte range at 100 is not aligned, and the lines overlapping it are those at 64 and 128 |
| `CacheFlush.TopLineFlushNeverEnds` | src/arch/x86/machine/hardware.c:78-80 | for `vaddr = 0xFFFFFFC0`, `size_bits = 0` and 64-byte lines, the asserts hold and one flush is intended. But every line-aligned `v` passes the loop test and the wrapping step keeps `v` line-aligned, so the loop never exits |
| `CacheFlush.BelowTopLineIff` | src/arch/x86/machine/hardware.c:73-80 | under the asserts, the assumption `BelowTopLine` holds exactly when `vaddr + 2^size_bits` plus one line size is at most `2^32` |
| `CacheFlush.AboveTopLineBreaksLoop` | src/arch/x86/machine/hardware.c:78-80 | under the asserts, every range that `BelowTopLine` excludes breaks the loop. Either the bound wraps to 0 and nothing is flushed, or every line-aligned `v` passes the loop test and the wrapping step keeps `v` line-aligned, so the loop never ends |
| `CacheFlush.TopRangeFlushesNothing` | src/arch/x86/machine/hardware.c:78-80 | for `vaddr = 2^31` and `size_bits = 31`, the asserts hold and 2^25 flushes are intended. But the bound wraps to 0 and the loop body never runs |
| `Prefetch.DisablePrefetchers` | src/arch/x86/machine/hardware.c:87-119 | returns true if and only if `MODEL_ID(version_info)` is on the allow-list. When false, nothing is written. When true, the value written is the old MSR value with the four disable bits ORed in |
| `Prefetch.ReadModifyWrite` | src/arch/x86/machine/hardware.c:103-111 | reading the two halves, ORing the four masks into the low half and writing `high << 32 \| low` sets exactly those bits in the MSR |
| `Prefetch.JoinSetLow` | src/arch/x86/machine/hardware.c:103-111 | rejoining the high half with a low half that has bits ORed in equals ORing those bits into the whole value |
| `Prefetch.HalvesRoundTrip` | src/arch/x86/machine/hardware.c:103-104 | splitting into low and high halves and rejoining them with `(high << 32) \| low` are inverse to each other |
| `Prefetch.WrittenKeepsHighHalf` | src/arch/x86/machine/hardware.c:104 | the high half written equals the high half read |
| `Prefetch.WrittenLowHalf` | src/arch/x86/machine/hardware.c:106-109 | the low half written is the low half read ORed with the four masks |
| `Prefetch.WrittenClearsNothing` | src/arch/x86/machine/hardware.c:106-111 | every bit set before the write is still set in the value written |
| `Prefetch.DisableIdempotent` | src/arch/x86/machine/hardware.c:103-113 | run on the value it wrote, the routine writes the same value again |

## Left out

- `init_sysenter_msrs`, `getRestartPC` and `setNextPC` (hardware.c:21-37) are not modelled. They are single MSR writes and accessors over the thread register file, which lives in another subsystem.
- The hardware instructions `x86_mfence`, `flushCacheLine`, `x86_cpuid_eax`, `x86_rdmsr_low`/`x86_rdmsr_high`, `x86_wrmsr` and `getCacheLineSize` are not modelled. Their results are parameters, and their effects are trace events or the returned write.
- The `printf` diagnostics are not modelled. They are console output and change no result.
- The CPU model-ID constants, the `MODEL_ID` extraction and the four `IA32_PREFETCHER_MSR_*` masks are abstract. They are defined in headers that are not part of this model. No property depends on their values.
- The headers defining `BIT`, `IS_ALIGNED`, `ROUND_DOWN` and `WORD_BITS` are not part of this model. These macros get their usual ia32 meaning, with `WORD_BITS = 32`.
- Prefetch.DisablePrefetchers: takes the current MSR value as an input. It does not show that the MSR is read only on a match.
- Prefetch.DisablePrefetchers: treats model IDs as 32-bit integers compared for equality.
- Prefetch.DisablePrefetchers: scans the allow-list as a sequence, not as the C's local array.
- CacheFlush.FlushCacheRange: requires `BelowTopLine`, which the C does not check. It says the line after the last line to flush starts below 2^32, which under the asserts means the range ends at least one line below 2^32 (`BelowTopLineIff`). For every other range, the 32-bit loop flushes nothing or never ends (`AboveTopLineBreaksLoop`, and Findings). `FlushCacheRangeWide` needs only the C's asserts.
- CacheFlush.FlushCacheRange: requires `lineBits < WORD_BITS`. This is the range of `x86KScacheLineSizeBits` that `GetCacheLineSizeBits` guarantees, and it is what `BIT(x86KScacheLineSizeBits)` needs to be defined.
- CacheGeometry.GetCacheLineSizeBits: does not model the two diagnostics that tell a failed 0 from the exponent of a 1-byte line. The contract states the ambiguity instead.

## Findings

| source | as written | input that shows it | evidently intended | confidence | as-written member | corrected member |
|---|---|---|---|---|---|---|
| src/arch/x86/machine/hardware.c:78-80 | `v += BIT(x86KScacheLineSizeBits)` is 32-bit. Past the top line of the address space `v` wraps to 0, which is still below a bound that did not wrap, so the walk starts over forever | `vaddr = 0xFFFFFFC0`, `size_bits = 0`, `x86KScacheLineSizeBits = 6` | flush the single line at `0xFFFFFFC0` and stop | medium, not executed | `CacheFlush.TopLineFlushNeverEnds` | `CacheFlush.FlushCacheRangeWide` |
| src/arch/x86/machine/hardware.c:79 | `(uint32_t)vaddr + BIT(size_bits)` wraps to 0 when the range ends at 2^32, so the loop test fails at once and nothing is flushed | `vaddr = 0x80000000`, `size_bits = 31`, `x86KScacheLineSizeBits = 6` | flush all 2^25 lines of `[2^31, 2^32)` | medium, not executed | `CacheFlush.TopRangeFlushesNothing` | `CacheFlush.FlushCacheRangeWide` |
