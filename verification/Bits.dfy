/**
 Bit-level access to unsigned words and to CAN payloads (core/codec/src/codec_bits.h).

 Words are natural numbers.  `Bit`, `SetBit` and `ClearBit` are the single-bit
 forms of `(v >> i) & 1`, `v | (1 << i)` and `v & ~(1 << i)`; `BitIsShiftAndMask`,
 `SetBitIsAddition` and `ClearBitIsSubtraction` tie them to ordinary arithmetic.
 */
module Bits {

  type byte = x: nat | x < 256

  function Pow2(n: nat): (p: int)
    ensures p >= 1
  {
    if n == 0 then 1 else 2 * Pow2(n - 1)
  }

  predicate Bit(v: nat, i: nat) {
    if i == 0 then v % 2 == 1 else Bit(v / 2, i - 1)
  }

  function SetBit(v: nat, i: nat): nat {
    if i == 0 then v / 2 * 2 + 1 else 2 * SetBit(v / 2, i - 1) + v % 2
  }

  function ClearBit(v: nat, i: nat): nat {
    if i == 0 then v / 2 * 2 else 2 * ClearBit(v / 2, i - 1) + v % 2
  }

  lemma {:induction false} BitIsShiftAndMask(v: nat, i: nat)
    ensures Bit(v, i) <==> v / Pow2(i) % 2 == 1
  {
    if i != 0 {
      BitIsShiftAndMask(v / 2, i - 1);
      DivDiv(v, Pow2(i - 1));
    }
  }

  lemma DivDiv(v: nat, k: nat)
    requires k >= 1
    ensures v / 2 / k == v / (2 * k)
  {
    var q, r := v / 2 / k, v / 2 % k;
    assert v / 2 == q * k + r;
    assert v == (2 * k) * q + (2 * r + v % 2);
    DivUnique(v, 2 * k, q, 2 * r + v % 2);
  }

  lemma DivUnique(a: int, d: nat, q: int, r: nat)
    requires r < d && a == d * q + r
    ensures a / d == q && a % d == r
  {
    var p := a / d;
    if p > q {
      MulStep(d, q, p);
    } else if p < q {
      MulStep(d, p, q);
    }
  }

  lemma MulStep(d: nat, x: int, y: int)
    requires x < y
    ensures d * x + d <= d * y
  {
    MulMono(d, x + 1, y);
  }

  lemma MulMono(d: nat, x: int, y: int)
    requires x <= y
    ensures d * x <= d * y
  {
  }

  lemma {:induction false} SetBitIsAddition(v: nat, i: nat)
    ensures SetBit(v, i) == if Bit(v, i) then v else v + Pow2(i)
  {
    if i != 0 { SetBitIsAddition(v / 2, i - 1); }
  }

  lemma {:induction false} ClearBitIsSubtraction(v: nat, i: nat)
    ensures ClearBit(v, i) == if Bit(v, i) then v - Pow2(i) else v
  {
    if i != 0 { ClearBitIsSubtraction(v / 2, i - 1); }
  }

  lemma {:induction false} BitOfSet(v: nat, i: nat, j: nat)
    ensures Bit(SetBit(v, i), j) == (i == j || Bit(v, j))
  {
    if i != 0 && j != 0 { BitOfSet(v / 2, i - 1, j - 1); }
  }

  lemma {:induction false} BitOfClear(v: nat, i: nat, j: nat)
    ensures Bit(ClearBit(v, i), j) == (i != j && Bit(v, j))
  {
    if i != 0 && j != 0 { BitOfClear(v / 2, i - 1, j - 1); }
  }

  lemma {:induction false} UpdateBound(v: nat, i: nat, n: nat)
    requires i < n && v < Pow2(n)
    ensures SetBit(v, i) < Pow2(n) && ClearBit(v, i) < Pow2(n)
  {
    assert v / 2 < Pow2(n - 1);
    if i != 0 { UpdateBound(v / 2, i - 1, n - 1); }
  }

  lemma {:induction false} NoHighBits(v: nat, n: nat, i: nat)
    requires v < Pow2(n) && n <= i
    ensures !Bit(v, i)
  {
    if n != 0 { NoHighBits(v / 2, n - 1, i - 1); } else if i != 0 { NoHighBits(0, 0, i - 1); }
  }

  /** A word is determined by its bits. */
  lemma {:induction false} SameBits(v: nat, w: nat, n: nat)
    requires v < Pow2(n) && w < Pow2(n)
    requires forall i | 0 <= i < n :: Bit(v, i) == Bit(w, i)
    ensures v == w
  {
    if n != 0 {
      assert Bit(v, 0) == Bit(w, 0);
      forall i | 0 <= i < n - 1 ensures Bit(v / 2, i) == Bit(w / 2, i) {
        assert Bit(v, i + 1) == Bit(w, i + 1);
      }
      SameBits(v / 2, w / 2, n - 1);
    }
  }

  lemma {:induction false} Pow2Split(a: nat, b: nat)
    ensures Pow2(a + b) == Pow2(a) * Pow2(b)
  {
    if a != 0 { Pow2Split(a - 1, b); }
  }

  lemma Pow2Mono(a: nat, b: nat)
    requires a <= b
    ensures Pow2(a) <= Pow2(b)
  {
    if a < b { Pow2Mono(a, b - 1); }
  }

  lemma Pow2Of8()
    ensures Pow2(8) == 256
  {
    Pow2Split(4, 4);
  }

  lemma Pow2Of32()
    ensures Pow2(32) == 0x1_0000_0000
  {
    Pow2Of8();
    Pow2Split(8, 8);
    Pow2Split(16, 16);
  }

  lemma Pow2Facts()
    ensures Pow2(63) == 0x8000_0000_0000_0000
    ensures Pow2(64) == 0x1_0000_0000_0000_0000
  {
    Pow2Of32();
    Pow2Split(32, 32);
    Pow2Split(1, 63);
  }

  /** Payload bit p: byte p / 8, bit position p % 8. */
  predicate FrameBit(f: seq<byte>, p: nat)
    requires p < 8 * |f|
  {
    Bit(f[p / 8], p % 8)
  }

  lemma WriteBit(f: seq<byte>, g: nat, b: bool, f': seq<byte>)
    requires g < 8 * |f|
    requires f' == f[g / 8 := if b then SetByteBit(f[g / 8], g % 8) else ClearByteBit(f[g / 8], g % 8)]
    ensures forall p: nat | p < 8 * |f| :: FrameBit(f', p) == if p == g then b else FrameBit(f, p)
  {
    forall p: nat | p < 8 * |f| ensures FrameBit(f', p) == if p == g then b else FrameBit(f, p) {
      if p / 8 == g / 8 {
        BitOfSet(f[g / 8], g % 8, p % 8);
        BitOfClear(f[g / 8], g % 8, p % 8);
      }
    }
  }

  /** `frame[k] |= (uint8_t)(1u << i)` */
  function SetByteBit(b: byte, i: nat): byte
    requires i < 8
  {
    Pow2Of8();
    UpdateBound(b, i, 8);
    SetBit(b, i)
  }

  /** `frame[k] &= (uint8_t)~(1u << i)` */
  function ClearByteBit(b: byte, i: nat): byte
    requires i < 8
  {
    Pow2Of8();
    UpdateBound(b, i, 8);
    ClearBit(b, i)
  }

  /** A frame is determined by its payload bits. */
  lemma SameFrame(f: seq<byte>, g: seq<byte>)
    requires |f| == |g|
    requires forall p: nat | p < 8 * |f| :: FrameBit(f, p) == FrameBit(g, p)
    ensures f == g
  {
    forall k | 0 <= k < |f| ensures f[k] == g[k] {
      Pow2Of8();
      forall i | 0 <= i < 8 ensures Bit(f[k], i) == Bit(g[k], i) {
        assert FrameBit(f, 8 * k + i) == FrameBit(g, 8 * k + i);
      }
      SameBits(f[k], g[k], 8);
    }
  }
}
