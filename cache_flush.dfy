/**
 * Cache range flushing: flushCacheRange flushes every cache line that
 * overlaps [vaddr, vaddr + 2^sizeBits), bracketed by two full memory fences.
 *
 * The hardware instructions are not modelled; each call to x86_mfence or
 * flushCacheLine is recorded as an event in the trace the operation returns.
 * The boot-time global x86KScacheLineSizeBits is the parameter `lineBits`.
 */
module CacheFlush {
  import opened MachineWord

  datatype Event = MFence | FlushLine(addr: nat)

  /** One past the last byte of the range, without wrap-around. */
  function RangeEnd(vaddr: nat, sizeBits: nat): nat
  {
    vaddr + Pow2(sizeBits)
  }

  /** The start of the k-th cache line from the one holding vaddr. */
  function LineAddress(vaddr: nat, lineBits: nat, k: nat): nat
  {
    RoundDown(vaddr, lineBits) + k * Pow2(lineBits)
  }

  /** How many cache lines overlap the range: a ceiling division. */
  function LineCount(vaddr: nat, sizeBits: nat, lineBits: nat): nat
  {
    var stride := Pow2(lineBits);
    (RangeEnd(vaddr, sizeBits) - RoundDown(vaddr, lineBits) + stride - 1) / stride
  }

  /** The events a range flush is meant to issue. */
  function FlushTrace(vaddr: nat, sizeBits: nat, lineBits: nat): seq<Event>
  {
    [MFence] + FlushedLines(vaddr, lineBits, LineCount(vaddr, sizeBits, lineBits)) + [MFence]
  }

  /** The flushes of the first n lines from the one holding vaddr, in address order. */
  function FlushedLines(vaddr: nat, lineBits: nat, n: nat): seq<Event>
  {
    seq(n, k requires 0 <= k => FlushLine(LineAddress(vaddr, lineBits, k)))
  }

  // ---------------------------------------------------------------------------
  // The C loop, with its 32-bit wrap-around written out
  // ---------------------------------------------------------------------------

  /** The loop bound (uint32_t)vaddr + BIT(size_bits), modulo 2^32. */
  function WrappedEnd(vaddr: Word, sizeBits: nat): Word
  {
    (vaddr + Pow2(sizeBits)) % WORD_SIZE
  }

  /** The loop step v += BIT(x86KScacheLineSizeBits), modulo 2^32. */
  function WrappedNext(v: Word, lineBits: nat): Word
  {
    (v + Pow2(lineBits)) % WORD_SIZE
  }

  /**
   * The line after the last one to flush still starts below 2^32, so neither
   * the bound nor the step wraps. This is an assumption the C does not check.
   */
  predicate BelowTopLine(vaddr: nat, sizeBits: nat, lineBits: nat)
  {
    LineAddress(vaddr, lineBits, LineCount(vaddr, sizeBits, lineBits)) < WORD_SIZE
  }

  /**
   * flushCacheRange as written, 32-bit arithmetic included. The first two
   * requires are the C's asserts, the third is the range of the global that
   * the resolver establishes, and BelowTopLine is the added assumption without
   * which the 32-bit loop misbehaves (see TopLineFlushNeverEnds and
   * TopRangeFlushesNothing).
   */
  method FlushCacheRange(vaddr: Word, sizeBits: Word, lineBits: Word) returns (trace: seq<Event>)
    requires sizeBits < WORD_BITS
    requires IsAligned(vaddr, sizeBits)
    requires lineBits < WORD_BITS
    requires BelowTopLine(vaddr, sizeBits, lineBits)
    ensures trace == FlushTrace(vaddr, sizeBits, lineBits)
  {
    ghost var count := LineCount(vaddr, sizeBits, lineBits);
    assert WrappedEnd(vaddr, sizeBits) == RangeEnd(vaddr, sizeBits) by {
      LineIndexBelowEnd(vaddr, sizeBits, lineBits, count);
    }

    trace := [MFence];
    var v: Word := RoundDown(vaddr, lineBits);
    ghost var i: nat := 0;
    while v < WrappedEnd(vaddr, sizeBits)
      invariant i <= count
      invariant v == LineAddress(vaddr, lineBits, i)
      invariant trace == [MFence] + FlushedLines(vaddr, lineBits, i)
      decreases count - i
    {
      assert i < count by {
        LineIndexBelowEnd(vaddr, sizeBits, lineBits, i);
      }
      assert WrappedNext(v, lineBits) == LineAddress(vaddr, lineBits, i + 1) by {
        NextLine(vaddr, lineBits, i);
        LineAddressMonotone(vaddr, lineBits, i + 1, count);
      }
      FlushedLinesSnoc(vaddr, lineBits, i);
      trace := trace + [FlushLine(v)];
      v := WrappedNext(v, lineBits);
      i := i + 1;
    }
    assert i == count by {
      LineIndexBelowEnd(vaddr, sizeBits, lineBits, i);
    }
    trace := trace + [MFence];
  }

  /**
   * flushCacheRange with its loop arithmetic done without wrap-around (as in
   * 64-bit arithmetic): correct for every input that meets the C's asserts.
   */
  method FlushCacheRangeWide(vaddr: Word, sizeBits: Word, lineBits: Word) returns (trace: seq<Event>)
    requires sizeBits < WORD_BITS
    requires IsAligned(vaddr, sizeBits)
    requires lineBits < WORD_BITS
    ensures trace == FlushTrace(vaddr, sizeBits, lineBits)
  {
    ghost var count := LineCount(vaddr, sizeBits, lineBits);
    var end: nat := vaddr + Pow2(sizeBits);

    trace := [MFence];
    var v: nat := RoundDown(vaddr, lineBits);
    ghost var i: nat := 0;
    while v < end
      invariant i <= count
      invariant v == LineAddress(vaddr, lineBits, i)
      invariant trace == [MFence] + FlushedLines(vaddr, lineBits, i)
      decreases count - i
    {
      assert i < count by {
        LineIndexBelowEnd(vaddr, sizeBits, lineBits, i);
      }
      NextLine(vaddr, lineBits, i);
      FlushedLinesSnoc(vaddr, lineBits, i);
      trace := trace + [FlushLine(v)];
      v := v + Pow2(lineBits);
      i := i + 1;
    }
    assert i == count by {
      LineIndexBelowEnd(vaddr, sizeBits, lineBits, i);
    }
    trace := trace + [MFence];
  }

  lemma NextLine(vaddr: nat, lineBits: nat, k: nat)
    ensures LineAddress(vaddr, lineBits, k + 1) == LineAddress(vaddr, lineBits, k) + Pow2(lineBits)
  {
    assert (k + 1) * Pow2(lineBits) == k * Pow2(lineBits) + Pow2(lineBits);
  }

  lemma LineAddressMonotone(vaddr: nat, lineBits: nat, j: nat, k: nat)
    requires j <= k
    ensures LineAddress(vaddr, lineBits, j) <= LineAddress(vaddr, lineBits, k)
  {
    MulMonotone(j, k, Pow2(lineBits));
  }

  lemma FlushedLinesSnoc(vaddr: nat, lineBits: nat, n: nat)
    ensures FlushedLines(vaddr, lineBits, n + 1)
            == FlushedLines(vaddr, lineBits, n) + [FlushLine(LineAddress(vaddr, lineBits, n))]
  {
  }

  // ---------------------------------------------------------------------------
  // Properties of the intended trace
  // ---------------------------------------------------------------------------

  /** The k-th line starts below the end of the range exactly when k < LineCount. */
  lemma LineIndexBelowEnd(vaddr: nat, sizeBits: nat, lineBits: nat, k: nat)
    ensures LineAddress(vaddr, lineBits, k) < RangeEnd(vaddr, sizeBits)
            <==> k < LineCount(vaddr, sizeBits, lineBits)
  {
    CeilDiv(RangeEnd(vaddr, sizeBits) - RoundDown(vaddr, lineBits), Pow2(lineBits), k);
  }

  /**
   * A fence comes first and last, every event between them is a line flush,
   * and there is at least one flush.
   */
  lemma FencesBracketFlushes(vaddr: nat, sizeBits: nat, lineBits: nat)
    ensures var t := FlushTrace(vaddr, sizeBits, lineBits);
            |t| >= 3 && t[0] == MFence && t[|t| - 1] == MFence &&
            forall i :: 0 < i < |t| - 1 ==> t[i].FlushLine?
  {
    LineIndexBelowEnd(vaddr, sizeBits, lineBits, 0);
  }

  /** The walk starts at vaddr rounded down and advances one line at a time. */
  lemma FlushWalk(vaddr: nat, sizeBits: nat, lineBits: nat)
    ensures var t := FlushTrace(vaddr, sizeBits, lineBits);
            t[1] == FlushLine(RoundDown(vaddr, lineBits)) &&
            forall i :: 1 <= i < |t| - 2 ==> t[i + 1].addr == t[i].addr + Pow2(lineBits)
  {
    LineIndexBelowEnd(vaddr, sizeBits, lineBits, 0);
    var t := FlushTrace(vaddr, sizeBits, lineBits);
    forall i | 1 <= i < |t| - 2
      ensures t[i + 1].addr == t[i].addr + Pow2(lineBits)
    {
      var k := i - 1;
      assert t[i] == FlushLine(LineAddress(vaddr, lineBits, k));
      assert t[i + 1] == FlushLine(LineAddress(vaddr, lineBits, k + 1));
      NextLine(vaddr, lineBits, k);
    }
  }

  /** Every flushed line is line-aligned and overlaps the range. */
  lemma FlushedLineOverlaps(vaddr: nat, sizeBits: nat, lineBits: nat, x: nat)
    requires FlushLine(x) in FlushTrace(vaddr, sizeBits, lineBits)
    ensures IsAligned(x, lineBits) && x < RangeEnd(vaddr, sizeBits) && vaddr < x + Pow2(lineBits)
  {
    var t := FlushTrace(vaddr, sizeBits, lineBits);
    var start, stride := RoundDown(vaddr, lineBits), Pow2(lineBits);
    var j :| 0 <= j < |t| && t[j] == FlushLine(x);
    var k := j - 1;
    assert x == LineAddress(vaddr, lineBits, k);
    MultipleIsAligned(k, lineBits);
    AlignedSum(start, k * stride, lineBits);
    LineIndexBelowEnd(vaddr, sizeBits, lineBits, k);
    MulMonotone(0, k, stride);
  }

  /** Every line-aligned line that overlaps the range is flushed. */
  lemma OverlappingLineFlushed(vaddr: nat, sizeBits: nat, lineBits: nat, x: nat)
    requires IsAligned(x, lineBits) && x < RangeEnd(vaddr, sizeBits) && vaddr < x + Pow2(lineBits)
    ensures FlushLine(x) in FlushTrace(vaddr, sizeBits, lineBits)
  {
    var t := FlushTrace(vaddr, sizeBits, lineBits);
    var start, stride := RoundDown(vaddr, lineBits), Pow2(lineBits);
    if x < start {
      // two distinct aligned addresses are at least a line apart
      AlignedSum(start, x, lineBits);
      DivMod(start - x, stride);
      MulAtLeast((start - x) / stride, stride);
      assert false;
    }
    var k := LineIndexOf(vaddr, lineBits, x);
    LineIndexBelowEnd(vaddr, sizeBits, lineBits, k);
    var lines := FlushedLines(vaddr, lineBits, LineCount(vaddr, sizeBits, lineBits));
    assert lines[k] == FlushLine(x);
    assert t == [MFence] + lines + [MFence];
    assert t[k + 1] == lines[k];
  }

  /** An aligned address at or above the first line is the start of some later line. */
  lemma LineIndexOf(vaddr: nat, lineBits: nat, x: nat) returns (k: nat)
    requires IsAligned(x, lineBits) && RoundDown(vaddr, lineBits) <= x
    ensures x == LineAddress(vaddr, lineBits, k)
  {
    var start, stride := RoundDown(vaddr, lineBits), Pow2(lineBits);
    var diff: nat := x - start;
    AlignedSum(x, start, lineBits);
    DivMod(diff, stride);
    k := diff / stride;
    assert diff == k * stride;
  }

  /**
   * The lines flushed are exactly the cache lines that overlap the range: a
   * line-aligned x is flushed iff [x, x + 2^lineBits) meets [vaddr, RangeEnd).
   */
  lemma FlushedIffOverlapping(vaddr: nat, sizeBits: nat, lineBits: nat, x: nat)
    ensures FlushLine(x) in FlushTrace(vaddr, sizeBits, lineBits)
            <==> IsAligned(x, lineBits) && x < RangeEnd(vaddr, sizeBits) && vaddr < x + Pow2(lineBits)
  {
    if FlushLine(x) in FlushTrace(vaddr, sizeBits, lineBits) {
      FlushedLineOverlaps(vaddr, sizeBits, lineBits, x);
    }
    if IsAligned(x, lineBits) && x < RangeEnd(vaddr, sizeBits) && vaddr < x + Pow2(lineBits) {
      OverlappingLineFlushed(vaddr, sizeBits, lineBits, x);
    }
  }

  /** Every byte of the range lies in a flushed line. */
  lemma EveryByteCovered(vaddr: nat, sizeBits: nat, lineBits: nat, a: nat)
    requires vaddr <= a < RangeEnd(vaddr, sizeBits)
    ensures FlushLine(RoundDown(a, lineBits)) in FlushTrace(vaddr, sizeBits, lineBits)
  {
    FlushedIffOverlapping(vaddr, sizeBits, lineBits, RoundDown(a, lineBits));
  }

  /**
   * With vaddr aligned to the range size, a range of at least a line is
   * flushed in 2^(sizeBits - lineBits) lines and a smaller one in exactly one.
   */
  lemma FlushCount(vaddr: nat, sizeBits: nat, lineBits: nat)
    requires IsAligned(vaddr, sizeBits)
    ensures |FlushTrace(vaddr, sizeBits, lineBits)| == LineCount(vaddr, sizeBits, lineBits) + 2
    ensures LineCount(vaddr, sizeBits, lineBits)
            == if sizeBits >= lineBits then Pow2(sizeBits - lineBits) else 1
  {
    var start, stride := RoundDown(vaddr, lineBits), Pow2(lineBits);
    var d := RangeEnd(vaddr, sizeBits) - start;
    if sizeBits >= lineBits {
      AlignedWeaken(vaddr, lineBits, sizeBits);
      assert start == vaddr;
      Pow2Add(lineBits, sizeBits - lineBits);
      assert d == Pow2(sizeBits - lineBits) * stride;
      assert d + stride - 1 == Pow2(sizeBits - lineBits) * stride + (stride - 1);
      DivModUnique(d + stride - 1, stride, Pow2(sizeBits - lineBits), stride - 1);
    } else {
      // vaddr - start is an aligned multiple of 2^sizeBits below 2^lineBits,
      // so the range ends no later than the end of its line
      AlignedWeaken(start, sizeBits, lineBits);
      AlignedSum(vaddr, start, sizeBits);
      var off := vaddr - start;
      AlignedBelowBoundary(off, sizeBits, lineBits);
      assert 0 < d <= stride;
      DivModUnique(d + stride - 1, stride, 1, d - 1);
    }
  }

  /** A multiple of 2^small below 2^large (small < large) leaves room for 2^small more. */
  lemma AlignedBelowBoundary(off: nat, small: nat, large: nat)
    requires small < large
    requires IsAligned(off, small) && off < Pow2(large)
    ensures off + Pow2(small) <= Pow2(large)
  {
    var p := Pow2(small);
    var top := Pow2(large) - p;
    Pow2StrictlyMonotone(small, large);
    AlignedWeaken(Pow2(large), small, large);
    assert IsAligned(Pow2(large), large) by {
      MultipleIsAligned(1, large);
    }
    AlignedSum(Pow2(large), p, small) by {
      MultipleIsAligned(1, small);
    }
    if off > top {
      AlignedSum(off, top, small);
      DivMod(off - top, p);
      MulAtLeast((off - top) / p, p);
      assert false;
    }
  }

  /** With the C's asserts met, the range ends within the 32-bit address space. */
  lemma RangeEndWithinWord(vaddr: Word, sizeBits: nat)
    requires sizeBits < WORD_BITS
    requires IsAligned(vaddr, sizeBits)
    ensures RangeEnd(vaddr, sizeBits) <= WORD_SIZE
  {
    Pow2WordBits();
    AlignedBelowBoundary(vaddr, sizeBits, WORD_BITS);
  }

  /**
   * A 64-byte range starting mid-line at 100 with 64-byte lines: it breaks the
   * C's alignment assert, so flushCacheRange may not be called on it, but the
   * lines overlapping it are the two at 64 and 128.
   */
  lemma MidLineRange()
    ensures !IsAligned(100, 6)
    ensures FlushTrace(100, 6, 6) == [MFence, FlushLine(64), FlushLine(128), MFence]
  {
    assert Pow2(6) == 64;
    assert RoundDown(100, 6) == 64;
    assert LineCount(100, 6, 6) == 2;
    assert LineAddress(100, 6, 1) == 128;
    assert FlushedLines(100, 6, 2) == [FlushLine(64), FlushLine(128)];
  }

  // ---------------------------------------------------------------------------
  // Findings: the 32-bit loop at the top of the address space
  // ---------------------------------------------------------------------------

  /**
   * A one-byte range in the last 64-byte line of the address space: the
   * asserts hold and the intended flush is that one line, but every
   * line-aligned v passes the loop test and the step keeps v line-aligned
   * (0xFFFFFFC0 + 64 wraps to 0), so the C loop never ends.
   */
  lemma TopLineFlushNeverEnds()
    ensures IsAligned(0xFFFF_FFC0, 0)
    ensures FlushTrace(0xFFFF_FFC0, 0, 6) == [MFence, FlushLine(0xFFFF_FFC0), MFence]
    ensures RoundDown(0xFFFF_FFC0, 6) < WrappedEnd(0xFFFF_FFC0, 0)
    ensures forall v: Word :: IsAligned(v, 6) ==>
              v < WrappedEnd(0xFFFF_FFC0, 0) && IsAligned(WrappedNext(v, 6), 6)
  {
    assert Pow2(6) == 64;
    forall v: Word | IsAligned(v, 6)
      ensures v < WrappedEnd(0xFFFF_FFC0, 0) && IsAligned(WrappedNext(v, 6), 6)
    {
      assert v % 64 == 0;
      assert v <= 0xFFFF_FFC0;
      if v == 0xFFFF_FFC0 {
        assert WrappedNext(v, 6) == 0;
      } else {
        assert WrappedNext(v, 6) == v + 64;
      }
    }
    FlushCount(0xFFFF_FFC0, 0, 6);
    assert RoundDown(0xFFFF_FFC0, 6) == 0xFFFF_FFC0;
    assert FlushedLines(0xFFFF_FFC0, 6, 1) == [FlushLine(0xFFFF_FFC0)];
    assert FlushTrace(0xFFFF_FFC0, 0, 6) == [MFence] + [FlushLine(0xFFFF_FFC0)] + [MFence];
  }

  /**
   * The upper half of the address space: the asserts hold and 2^25 lines
   * should be flushed, but the bound 2^31 + 2^31 wraps to 0, so the loop test
   * fails at once and nothing is flushed.
   */
  lemma TopRangeFlushesNothing()
    ensures IsAligned(0x8000_0000, 31)
    ensures LineCount(0x8000_0000, 31, 6) == Pow2(25)
    ensures WrappedEnd(0x8000_0000, 31) == 0
    ensures !(RoundDown(0x8000_0000, 6) < WrappedEnd(0x8000_0000, 31))
  {
    Pow2WordBits();
    assert Pow2(31) == 0x8000_0000;
    MultipleIsAligned(1, 31);
    FlushCount(0x8000_0000, 31, 6);
  }

  /**
   * Under the C's asserts, BelowTopLine excludes exactly the ranges that end
   * within one line of 2^32.
   */
  lemma BelowTopLineIff(vaddr: Word, sizeBits: nat, lineBits: nat)
    requires sizeBits < WORD_BITS
    requires IsAligned(vaddr, sizeBits)
    requires lineBits < WORD_BITS
    ensures BelowTopLine(vaddr, sizeBits, lineBits)
            <==> RangeEnd(vaddr, sizeBits) + Pow2(lineBits) <= WORD_SIZE
  {
    var end, stride := RangeEnd(vaddr, sizeBits), Pow2(lineBits);
    var count := LineCount(vaddr, sizeBits, lineBits);
    var next := LineAddress(vaddr, lineBits, count);
    LineIndexBelowEnd(vaddr, sizeBits, lineBits, 0);
    LineIndexBelowEnd(vaddr, sizeBits, lineBits, count);
    LineIndexBelowEnd(vaddr, sizeBits, lineBits, count - 1);
    NextLine(vaddr, lineBits, count - 1);
    assert end <= next < end + stride;
    if end + stride > WORD_SIZE && next < WORD_SIZE {
      // next and 2^32 are both line-aligned and less than a line apart
      assert IsAligned(next, lineBits) by {
        MultipleIsAligned(count, lineBits);
        AlignedSum(RoundDown(vaddr, lineBits), count * stride, lineBits);
      }
      WordSizeAligned(lineBits);
      AlignedSum(WORD_SIZE, next, lineBits);
      AlignedPositiveAtLeast(WORD_SIZE - next, lineBits);
      assert false;
    }
  }

  /**
   * Every range BelowTopLine excludes breaks the 32-bit loop: either the
   * bound wraps to 0, so the loop test fails at once and nothing is flushed,
   * or every line-aligned word passes the loop test and the wrapping step
   * keeps v line-aligned, so the loop never ends.
   */
  lemma AboveTopLineBreaksLoop(vaddr: Word, sizeBits: nat, lineBits: nat)
    requires sizeBits < WORD_BITS
    requires IsAligned(vaddr, sizeBits)
    requires lineBits < WORD_BITS
    requires !BelowTopLine(vaddr, sizeBits, lineBits)
    ensures WrappedEnd(vaddr, sizeBits) == 0 ||
            forall v: Word :: IsAligned(v, lineBits) ==>
              v < WrappedEnd(vaddr, sizeBits) && IsAligned(WrappedNext(v, lineBits), lineBits)
  {
    var end, stride := RangeEnd(vaddr, sizeBits), Pow2(lineBits);
    BelowTopLineIff(vaddr, sizeBits, lineBits);
    RangeEndWithinWord(vaddr, sizeBits);
    if end < WORD_SIZE {
      assert WrappedEnd(vaddr, sizeBits) == end;
      WordSizeAligned(lineBits);
      forall v: Word | IsAligned(v, lineBits)
        ensures v < end && IsAligned(WrappedNext(v, lineBits), lineBits)
      {
        AlignedSum(WORD_SIZE, v, lineBits);
        AlignedPositiveAtLeast(WORD_SIZE - v, lineBits);
        MultipleIsAligned(1, lineBits);
        AlignedSum(v, stride, lineBits);
        if v + stride == WORD_SIZE {
          assert WrappedNext(v, lineBits) == 0;
        } else {
          assert WrappedNext(v, lineBits) == v + stride;
        }
      }
    }
  }
}
