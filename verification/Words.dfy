/** The C integer types uint16_t, uint32_t and uint64_t: ranges, wrap-around and division. */
module Words {
  import opened Bits

  const UINT32_MODULUS: nat := 0x1_0000_0000
  const UINT64_MODULUS: int := 0x1_0000_0000_0000_0000
  const INT64_LIMIT: int := 0x8000_0000_0000_0000
  const UINT32_MAX := 0xFFFF_FFFF
  const UINT64_MAX := 0xFFFF_FFFF_FFFF_FFFF

  type uint16 = x: nat | x <= 0xFFFF
  type uint32 = x: nat | x < UINT32_MODULUS
  type uint64 = x: nat | x < UINT64_MODULUS
  type int64 = x: int | -INT64_LIMIT <= x < INT64_LIMIT

  /** uint32_t arithmetic: values wrap at 2^32. */
  function U32(x: nat): (r: nat)
    ensures r < UINT32_MODULUS && (x < UINT32_MODULUS ==> r == x)
  {
    x % UINT32_MODULUS
  }

  /** uint64_t arithmetic: values wrap at 2^64. */
  function U64(x: nat): (r: nat)
    ensures r < UINT64_MODULUS && (x < UINT64_MODULUS ==> r == x)
  {
    x % UINT64_MODULUS
  }

  lemma {:induction false} ModShift(x: nat, q: nat)
    ensures U32(x + q * UINT32_MODULUS) == U32(x)
  {
    if q != 0 {
      ModShift(x, q - 1);
      assert x + q * UINT32_MODULUS == x + (q - 1) * UINT32_MODULUS + UINT32_MODULUS;
    }
  }

  /** Wrapping along the way changes nothing. */
  lemma U32Add(a: nat, b: nat)
    ensures U32(U32(a) + b) == U32(a + b)
  {
    var q := a / UINT32_MODULUS;
    assert a == q * UINT32_MODULUS + U32(a);
    ModShift(U32(a) + b, q);
  }

  lemma FloorIsMost(n: nat, d: nat, k: nat)
    requires d > 0
    ensures k <= n / d <==> d * k <= n
  {
    var q, r := n / d, n % d;
    assert n == d * q + r;
    if k <= q { MulMono(d, k, q); } else { MulStep(d, q, k); }
  }

  lemma FloorMono(m: nat, n: nat, d: nat)
    requires d > 0 && m <= n
    ensures 0 <= m / d <= n / d
  {
    var q, r := m / d, m % d;
    assert m == d * q + r;
    if q < 0 { MulStep(d, q, 0); }
    FloorIsMost(m, d, q);
    FloorIsMost(n, d, q);
  }
}
