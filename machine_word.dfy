/**
 * 32-bit machine words of the ia32 kernel and the bit macros the cache code
 * is written with: BIT(n), IS_ALIGNED(n, b) and ROUND_DOWN(n, b), all on
 * unsigned 32-bit values. The macros are defined in headers outside this
 * model; here they have their usual meaning (1 << n, no bit below b set,
 * (n >> b) << b), stated arithmetically.
 */
module MachineWord {

  /** WORD_BITS on ia32. */
  const WORD_BITS: nat := 32

  /** 2^WORD_BITS: unsigned 32-bit arithmetic wraps modulo this. */
  const WORD_SIZE: nat := 0x1_0000_0000

  /** A uint32_t / word_t value. */
  type Word = x: int | 0 <= x < 0x1_0000_0000

  /** 2^k, the value of BIT(k) when k < WORD_BITS. */
  function Pow2(k: nat): (r: nat)
    ensures r > 0
  {
    if k == 0 then 1 else 2 * Pow2(k - 1)
  }

  /** IS_ALIGNED(x, bits): the low `bits` bits of x are zero. */
  predicate IsAligned(x: int, bits: nat)
  {
    x % Pow2(bits) == 0
  }

  /** ROUND_DOWN(x, bits): x with its low `bits` bits cleared. */
  function RoundDown(x: nat, bits: nat): (r: nat)
    ensures r <= x < r + Pow2(bits)
    ensures IsAligned(r, bits)
  {
    RoundDownBounds(x, Pow2(bits));
    (x / Pow2(bits)) * Pow2(bits)
  }

  /** BIT(WORD_BITS) is the size of the address space. */
  lemma Pow2WordBits()
    ensures Pow2(WORD_BITS) == WORD_SIZE
  {
    assert Pow2(2) == 4;
    assert Pow2(4) == 16 by {
      Pow2Add(2, 2);
    }
    assert Pow2(8) == 256 by {
      Pow2Add(4, 4);
    }
    assert Pow2(16) == 65536 by {
      Pow2Add(8, 8);
    }
    Pow2Add(16, 16);
  }

  lemma {:induction false} Pow2Add(a: nat, b: nat)
    ensures Pow2(a + b) == Pow2(a) * Pow2(b)
  {
    if a > 0 {
      Pow2Add(a - 1, b);
      calc {
        Pow2(a + b);
        2 * Pow2(a - 1 + b);
        2 * (Pow2(a - 1) * Pow2(b));
        (2 * Pow2(a - 1)) * Pow2(b);
      }
    }
  }

  lemma {:induction false} Pow2Monotone(a: nat, b: nat)
    requires a <= b
    ensures Pow2(a) <= Pow2(b)
  {
    if a < b {
      Pow2Monotone(a, b - 1);
    }
  }

  lemma Pow2StrictlyMonotone(a: nat, b: nat)
    requires a < b
    ensures 2 * Pow2(a) <= Pow2(b)
  {
    Pow2Monotone(a + 1, b);
  }

  /** A word is below BIT(WORD_BITS), so BIT(k) of a word-sized k is a word exactly when k < WORD_BITS. */
  lemma Pow2BelowWordSize(k: nat)
    ensures Pow2(k) < WORD_SIZE <==> k < WORD_BITS
  {
    Pow2WordBits();
    if k < WORD_BITS {
      Pow2StrictlyMonotone(k, WORD_BITS);
    } else {
      Pow2Monotone(WORD_BITS, k);
    }
  }

  lemma Pow2Injective(a: nat, b: nat)
    requires Pow2(a) == Pow2(b)
    ensures a == b
  {
    if a < b {
      Pow2StrictlyMonotone(a, b);
    } else if b < a {
      Pow2StrictlyMonotone(b, a);
    }
  }

  /** Alignment to a larger power of two implies alignment to a smaller one. */
  lemma AlignedWeaken(x: int, small: nat, large: nat)
    requires small <= large
    requires IsAligned(x, large)
    ensures IsAligned(x, small)
  {
    var ps, pl := Pow2(small), Pow2(large);
    var m := Pow2(large - small);
    assert pl == m * ps by {
      Pow2Add(large - small, small);
    }
    var q := x / pl;
    assert x == q * pl by {
      DivMod(x, pl);
    }
    assert x == (q * m) * ps;
    MulMod(q * m, ps);
  }

  lemma MultipleIsAligned(q: int, bits: nat)
    ensures IsAligned(q * Pow2(bits), bits)
  {
    MulMod(q, Pow2(bits));
  }

  lemma MulMod(q: int, d: nat)
    requires d > 0
    ensures (q * d) % d == 0
    ensures (q * d) / d == q
  {
    var r := q * d;
    assert r == q * d + 0;
    DivModUnique(r, d, q, 0);
  }

  lemma DivModUnique(x: int, d: nat, q: int, m: int)
    requires d > 0 && 0 <= m < d
    requires x == q * d + m
    ensures x / d == q && x % d == m
  {
    var q', m' := x / d, x % d;
    assert x == q' * d + m';
    assert (q - q') * d == m' - m;
    if q > q' {
      MulAtLeast(q - q', d);
    } else if q < q' {
      MulAtLeast(q' - q, d);
    }
  }

  lemma RoundDownBounds(x: nat, p: nat)
    requires p > 0
    ensures 0 <= (x / p) * p <= x < (x / p) * p + p
    ensures ((x / p) * p) % p == 0
  {
    DivMod(x, p);
    MulMod(x / p, p);
  }

  lemma DivMod(x: int, d: nat)
    requires d > 0
    ensures x == (x / d) * d + x % d && 0 <= x % d < d
  {
  }

  lemma MulAtLeast(a: int, d: nat)
    requires a >= 1
    ensures a * d >= d
  {
  }

  lemma MulMonotone(a: int, b: int, d: nat)
    requires a <= b
    ensures a * d <= b * d
  {
    if a < b {
      MulAtLeast(b - a, d);
      assert b * d - a * d == (b - a) * d;
    }
  }

  /** i whole strides fit below d exactly when i is below the ceiling of d / s. */
  lemma CeilDiv(d: nat, s: nat, i: nat)
    requires s > 0
    ensures i * s < d <==> i < (d + s - 1) / s
  {
    var c := (d + s - 1) / s;
    DivMod(d + s - 1, s);
    if i < c {
      MulMonotone(i, c - 1, s);
      assert (c - 1) * s == c * s - s;
    } else {
      MulMonotone(c, i, s);
    }
  }

  /** Multiples of 2^bits are aligned, and sums and differences of aligned values are too. */
  lemma AlignedSum(x: int, y: int, bits: nat)
    requires IsAligned(x, bits) && IsAligned(y, bits)
    ensures IsAligned(x + y, bits) && IsAligned(x - y, bits)
  {
    var p := Pow2(bits);
    DivMod(x, p);
    DivMod(y, p);
    assert x + y == (x / p + y / p) * p;
    assert x - y == (x / p - y / p) * p;
    MulMod(x / p + y / p, p);
    MulMod(x / p - y / p, p);
  }

  /** An aligned value at or below x is at or below x rounded down, so RoundDown is the largest such value. */
  lemma AlignedBelowRoundDown(a: nat, x: nat, bits: nat)
    requires IsAligned(a, bits) && a <= x
    ensures a <= RoundDown(x, bits)
  {
    var p := Pow2(bits);
    var r := RoundDown(x, bits);
    if a > r {
      AlignedSum(a, r, bits);
      var q := (a - r) / p;
      DivMod(a - r, p);
      assert a - r == q * p;
      MulAtLeast(q, p);
      assert false;
    }
  }

  /** A positive multiple of 2^bits is at least 2^bits. */
  lemma AlignedPositiveAtLeast(a: int, bits: nat)
    requires IsAligned(a, bits) && a > 0
    ensures a >= Pow2(bits)
  {
    DivMod(a, Pow2(bits));
    MulAtLeast(a / Pow2(bits), Pow2(bits));
  }

  /** 2^WORD_BITS is aligned to every smaller power of two. */
  lemma WordSizeAligned(bits: nat)
    requires bits <= WORD_BITS
    ensures IsAligned(WORD_SIZE, bits)
  {
    Pow2WordBits();
    MultipleIsAligned(1, WORD_BITS);
    AlignedWeaken(WORD_SIZE, bits, WORD_BITS);
  }
}
