/** Block-count arithmetic of the AHCI adapter: how many whole blocks of
    `bs` bytes a buffer of `len` bytes occupies. */
module BlockMath {
  import opened MachineInt

  /** Reference definition: peel whole blocks off the buffer until nothing
      is left; a final partial block still takes a whole block. */
  function BlocksToCover(len: nat, bs: nat): nat
    requires bs > 0
    decreases len
  {
    if len == 0 then 0
    else if len <= bs then 1
    else 1 + BlocksToCover(len - bs, bs)
  }

  /** `n` blocks of `bs` bytes hold at least `len` bytes. */
  predicate Covers(n: nat, len: nat, bs: nat) {
    n * bs >= len
  }

  /** The adapter's formula `(len + bs - 1) / bs`, over unbounded integers. */
  function BlockCount(len: nat, bs: nat): nat
    requires bs > 0
  {
    (len + bs - 1) / bs
  }

  /** `len + bs - 1` as a release build evaluates it on usize: the sum and
      the decrement wrap modulo 2^64 instead of panicking. */
  function WrappedDividend(len: usize, bs: usize): (d: usize)
    requires bs > 0
    ensures len + bs - 1 <= USIZE_MAX ==> d == len + bs - 1
    ensures len + bs - 1 > USIZE_MAX ==> d == len + bs - 1 - U64_MODULUS
  {
    WrappingSub(WrappingAdd(len, bs), 1)
  }

  /** The adapter's formula `(len + bs - 1) / bs` as a release build
      evaluates it on usize. */
  function WrappingBlockCount(len: usize, bs: usize): (r: usize)
    requires bs > 0
    ensures len + bs - 1 <= USIZE_MAX ==> r == BlockCount(len, bs)
    ensures len + bs - 1 > USIZE_MAX ==> r < BlockCount(len, bs)
  {
    WrappedQuotient(len, bs);
    UsizeDiv(WrappedDividend(len, bs), bs)
  }

  /** Dividing the wrapped dividend gives the formula's value when
      `len + bs - 1` fits in usize, and loses at least one whole block when
      it overflows, since the wrap drops 2^64 >= bs. */
  lemma WrappedQuotient(len: usize, bs: usize)
    requires bs > 0
    ensures len + bs - 1 <= USIZE_MAX ==> UsizeDiv(WrappedDividend(len, bs), bs) == BlockCount(len, bs)
    ensures len + bs - 1 > USIZE_MAX ==> UsizeDiv(WrappedDividend(len, bs), bs) < BlockCount(len, bs)
  {
    var x := len + bs - 1;
    if x > USIZE_MAX {
      DivMonotone(x - U64_MODULUS, x - bs, bs);
      DivAddDivisor(x - bs, bs);
    }
  }

  // ---------------------------------------------------------------------
  // Division facts used below (Dafny's `/` and `%` are Euclidean, which
  // agrees with Rust's unsigned division on the non-negative values here).

  lemma DivUnique(a: int, d: int, q: int, r: int)
    requires d > 0 && 0 <= r < d
    requires a == q * d + r
    ensures a / d == q && a % d == r
  {
    var q', r' := a / d, a % d;
    assert a == q' * d + r';
    if q' < q {
      MulMonotone(q' + 1, q, d);
    } else if q < q' {
      MulMonotone(q + 1, q', d);
    }
  }

  lemma DivAddDivisor(x: nat, d: nat)
    requires d > 0
    ensures (x + d) / d == x / d + 1
  {
    assert x == (x / d) * d + x % d;
    DivUnique(x + d, d, x / d + 1, x % d);
  }

  lemma DivMonotone(a: nat, b: nat, d: nat)
    requires d > 0 && a <= b
    ensures a / d <= b / d
  {
    assert a == (a / d) * d + a % d;
    assert b == (b / d) * d + b % d;
    if b / d < a / d {
      assert (b / d + 1) * d == (b / d) * d + d;
      MulMonotone(b / d + 1, a / d, d);
    }
  }

  // ---------------------------------------------------------------------
  // The formula computes the ceiling of len / bs.

  /** Splits the formula on whether `len` is a multiple of `bs`. */
  lemma BlockCountCases(len: nat, bs: nat)
    requires bs > 0
    ensures len % bs == 0 ==> BlockCount(len, bs) == len / bs
    ensures len % bs != 0 ==> BlockCount(len, bs) == len / bs + 1
  {
    var q, r := len / bs, len % bs;
    assert len == q * bs + r;
    if r == 0 {
      DivUnique(len + bs - 1, bs, q, bs - 1);
    } else {
      assert len + bs - 1 == (q + 1) * bs + (r - 1);
      DivUnique(len + bs - 1, bs, q + 1, r - 1);
    }
  }

  /** The formula agrees with the block-peeling reference definition. */
  lemma {:induction false} BlockCountMatchesCover(len: nat, bs: nat)
    requires bs > 0
    ensures BlockCount(len, bs) == BlocksToCover(len, bs)
    decreases len
  {
    if len == 0 {
      DivUnique(bs - 1, bs, 0, bs - 1);
    } else if len <= bs {
      DivUnique(len + bs - 1, bs, 1, len - 1);
    } else {
      BlockCountMatchesCover(len - bs, bs);
      DivAddDivisor(len - bs + bs - 1, bs);
    }
  }

  /** The formula yields the least block count that covers the buffer. */
  lemma BlockCountIsLeastCover(len: nat, bs: nat)
    requires bs > 0
    ensures Covers(BlockCount(len, bs), len, bs)
    ensures forall m: nat :: Covers(m, len, bs) ==> BlockCount(len, bs) <= m
  {
    var n := BlockCount(len, bs);
    var q, r := len / bs, len % bs;
    assert len == q * bs + r;
    BlockCountCases(len, bs);
    if r != 0 {
      assert n * bs == q * bs + bs;
      assert (n - 1) * bs == q * bs;
    } else {
      assert (n - 1) * bs == q * bs - bs;
    }
    assert (n - 1) * bs < len;
    forall m: nat | Covers(m, len, bs)
      ensures n <= m
    {
      if m < n {
        MulMonotone(m, n - 1, bs);
      }
    }
  }

  /** Boundary cases: an empty buffer needs no block, exactly one block
      needs one, and one byte more needs two. */
  lemma BlockCountBoundaries(bs: nat)
    requires bs > 0
    ensures BlockCount(0, bs) == 0
    ensures BlockCount(bs, bs) == 1
    ensures BlockCount(bs + 1, bs) == 2
  {
    DivUnique(bs - 1, bs, 0, bs - 1);
    DivUnique(bs + bs - 1, bs, 1, bs - 1);
    DivUnique(bs + bs, bs, 2, 0);
  }

  /** The bytes the rounded-up count transfers: exactly `len` when the
      buffer is block-aligned, otherwise more than `len` but less than one
      extra block. */
  lemma TransferExtent(len: nat, bs: nat)
    requires bs > 0
    ensures len <= BlockCount(len, bs) * bs < len + bs
    ensures BlockCount(len, bs) * bs == len <==> len % bs == 0
  {
    var q, r := len / bs, len % bs;
    assert len == q * bs + r;
    BlockCountCases(len, bs);
    if r != 0 {
      assert BlockCount(len, bs) * bs == q * bs + bs;
    }
  }

  /** Rounding an already rounded-up length changes nothing. */
  lemma BlockCountOfPadded(len: nat, bs: nat)
    requires bs > 0
    ensures BlockCount(BlockCount(len, bs) * bs, bs) == BlockCount(len, bs)
  {
    var n := BlockCount(len, bs);
    DivUnique(n * bs + bs - 1, bs, n, bs - 1);
  }
}
