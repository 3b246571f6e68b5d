/** Fixed-width unsigned integers of the Rust target (64-bit), with the
    narrowing cast and the wrapping arithmetic the adapter's usize
    expressions use in a release build. */
module MachineInt {

  const U32_MODULUS: nat := 0x1_0000_0000
  const U64_MODULUS: nat := 0x1_0000_0000_0000_0000

  /** Largest value of `usize` on the 64-bit targets the driver is built for. */
  const USIZE_MAX: nat := U64_MODULUS - 1

  type byte = x: nat | x < 0x100
  type u32 = x: nat | x < U32_MODULUS
  type u64 = x: nat | x < U64_MODULUS

  /** `usize` has the width of `u64`, so `x as u64` and `x as usize` are identities. */
  type usize = u64

  /** Rust's `x as u32`: keeps the low 32 bits. */
  function AsU32(x: u64): (r: u32)
    ensures x < U32_MODULUS ==> r == x
    ensures x >= U32_MODULUS ==> r < x
    ensures (x - r) % U32_MODULUS == 0
  {
    x % U32_MODULUS
  }

  /** `a + b` on usize without overflow checks (release build). */
  function WrappingAdd(a: usize, b: usize): (r: usize)
    ensures a + b <= USIZE_MAX ==> r == a + b
    ensures a + b > USIZE_MAX ==> r == a + b - U64_MODULUS
  {
    (a + b) % U64_MODULUS
  }

  /** `a - b` on usize without overflow checks (release build). */
  function WrappingSub(a: usize, b: usize): (r: usize)
    ensures a >= b ==> r == a - b
    ensures a < b ==> r == a - b + U64_MODULUS
  {
    (a - b) % U64_MODULUS
  }

  /** `a / b` on usize: unsigned division rounds toward zero, as Dafny's
      Euclidean `/` does on non-negative operands. */
  function UsizeDiv(a: usize, b: usize): (q: usize)
    requires b > 0
    ensures q <= a
    ensures q * b <= a < q * b + b
  {
    DivBounds(a, b);
    a / b
  }

  lemma DivBounds(a: nat, b: nat)
    requires b > 0
    ensures 0 <= a / b <= a
    ensures (a / b) * b <= a < (a / b) * b + b
  {
    var q, r := a / b, a % b;
    assert a == q * b + r;
    if q < 0 {
      MulMonotone(q, -1, b);
    } else if q > a {
      MulMonotone(1, b, q);
    }
  }

  lemma MulMonotone(a: int, b: int, c: nat)
    requires a <= b
    ensures a * c <= b * c
  {
  }
}
