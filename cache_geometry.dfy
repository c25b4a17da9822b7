/**
 * Cache geometry: getCacheLineSizeBits turns the cache-line size reported by
 * the hardware (in bytes) into its log2 exponent, or into the sentinel 0 when
 * the size is zero or not a power of two.
 */
module CacheGeometry {
  import opened MachineWord

  /** x is 2^k for some k (so 0 is not a power of two). */
  ghost predicate IsPowerOfTwo(x: int)
  {
    exists k: nat :: Pow2(k) == x
  }

  /**
   * The resolver. `lineSize` is the value getCacheLineSize() reports; `n` is
   * the returned exponent. The ghost `shifts` counts the iterations of the
   * shift loop: the number of trailing zero bits of a nonzero size.
   */
  method GetCacheLineSizeBits(lineSize: Word) returns (n: Word, ghost shifts: nat)
    ensures n < WORD_BITS
    // a zero size is rejected before the loop, which could not end on it
    ensures lineSize == 0 ==> n == 0 && shifts == 0
    // the loop stops at the lowest set bit
    ensures lineSize != 0 ==> lineSize % Pow2(shifts) == 0 && (lineSize / Pow2(shifts)) % 2 == 1
    // a power of two 2^k yields exactly k, after exactly k shifts
    ensures forall k: nat :: Pow2(k) == lineSize ==> n == k && shifts == k
    // every other size yields the sentinel
    ensures !IsPowerOfTwo(lineSize) ==> n == 0
    // so 0 is returned both for the valid size 1 and for every invalid size
    ensures n == 0 <==> lineSize == 1 || !IsPowerOfTwo(lineSize)
  {
    if lineSize == 0 {
      assert !IsPowerOfTwo(lineSize);
      return 0, 0;
    }

    var size := lineSize;
    n := 0;
    while size % 2 == 0
      invariant 0 < size <= lineSize
      invariant lineSize == size * Pow2(n)
      invariant n < WORD_BITS
      decreases size
    {
      assert lineSize == (size / 2) * Pow2(n + 1) && Pow2(n + 1) <= lineSize by {
        ShiftOutZero(size, n);
        MulAtLeast(size / 2, Pow2(n + 1));
      }
      assert n + 1 < WORD_BITS by {
        Pow2BelowWordSize(n + 1);
      }
      size := size / 2;
      n := n + 1;
    }
    shifts := n;
    assert lineSize % Pow2(shifts) == 0 && lineSize / Pow2(shifts) == size by {
      MulMod(size, Pow2(n));
    }

    if size != 1 {
      forall k: nat ensures Pow2(k) != lineSize {
        if Pow2(k) == lineSize {
          OddMultipleOfPow2(size, n, k);
        }
      }
      n := 0;
      return;
    }

    assert Pow2(n) == lineSize;
    forall k: nat | Pow2(k) == lineSize ensures n == k {
      Pow2Injective(k, n);
    }
  }

  /** One iteration of the shift loop moves a zero bit from the size into the count. */
  lemma ShiftOutZero(size: nat, n: nat)
    requires size % 2 == 0
    ensures size * Pow2(n) == (size / 2) * Pow2(n + 1)
  {
    var half := size / 2;
    assert size == 2 * half;
    calc {
      size * Pow2(n);
      (2 * half) * Pow2(n);
      half * (2 * Pow2(n));
      half * Pow2(n + 1);
    }
  }

  /** An odd multiple of 2^n is a power of two only when it is 2^n itself. */
  lemma {:induction false} OddMultipleOfPow2(odd: nat, n: nat, k: nat)
    requires odd % 2 == 1
    requires odd * Pow2(n) == Pow2(k)
    ensures odd == 1 && n == k
  {
    if n == 0 {
      if k > 0 {
        assert false;
      }
    } else if k == 0 {
      MulAtLeast(odd, Pow2(n));
      assert false;
    } else {
      assert odd * (2 * Pow2(n - 1)) == 2 * Pow2(k - 1);
      assert odd * Pow2(n - 1) == Pow2(k - 1);
      OddMultipleOfPow2(odd, n - 1, k - 1);
    }
  }

  /** Every exponent the resolver can return names a size that is a 32-bit word. */
  lemma ExponentSizeIsWord(k: nat)
    requires k < WORD_BITS
    ensures Pow2(k) < WORD_SIZE && IsPowerOfTwo(Pow2(k))
  {
    Pow2BelowWordSize(k);
  }
}
