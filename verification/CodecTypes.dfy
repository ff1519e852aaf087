/** Shared codec types (core/codec/include/cancestry/codec/types.h). */
module CodecTypes {
  import opened Bits
  import opened CodecBits
  import opened Wrappers
  import opened Words

  datatype Status =
    | Ok | WarnFrameTooShort | WarnValueClamped | WarnEnumUnknown
    | ErrNull | ErrArgument | ErrNotFound | ErrAmbiguous | ErrConflict
    | ErrRange | ErrFrameTooShort | ErrCapacity
  {
    predicate IsError() { !(Ok? || WarnFrameTooShort? || WarnValueClamped? || WarnEnumUnknown?) }
  }

  datatype SignalType = TypeUint | TypeInt | TypeBoolean | TypeEnum

  datatype Layout = Contiguous | Sawtooth

  /** A tagged value; REAL carries an exact real number. */
  datatype Value = Unset | Bool(b: bool) | Int(i: int64) | Uint(u: uint64) | Real(r: real)

  datatype Mapping = Mapping(raw: uint64, name: string)

  datatype Signal = Signal(
    name: string, startBit: nat, bitLength: nat, kind: SignalType,
    scale: real, offset: real, values: Option<seq<Mapping>>,
    hasMin: bool, min: real, hasMax: bool, max: real, strict: bool,
    firstBit: nat, lastBit: nat, layout: Layout)

  datatype Message = Message(id: nat, name: string, dlc: nat, signals: seq<Signal>)

  datatype Decoded = Decoded(signal: Signal, raw: uint64, value: Value, caption: Option<string>)

  /** The warning counters; each is a uint32_t. */
  datatype Counters = Counters(frameTooShort: nat, valueClamped: nat, enumUnknown: nat)

  /** Caller-owned storage for the counters. */
  class Warnings {
    var at: Counters
  }

  predicate Scaled(s: Signal) { s.scale != 1.0 || s.offset != 0.0 }

  function PlacementOf(s: Signal): Placement {
    if s.layout.Sawtooth? then Saw(s.startBit, s.bitLength) else Run(s.firstBit, s.bitLength)
  }

  /** What the loaders guarantee of every signal they accept. */
  predicate Loadable(s: Signal) {
    && 1 <= s.bitLength <= 64
    && s.startBit < UINT32_MODULUS
    && (s.layout.Contiguous? ==> s.lastBit == s.firstBit + s.bitLength - 1)
    && (s.kind.TypeUint? || s.kind.TypeInt? ==> s.scale != 0.0)
    && (s.kind.TypeBoolean? ==> s.bitLength == 1)
  }

  /** The payload lengths CAN and CAN FD can express, 0 excluded. */
  predicate FrameLengthOk(length: nat) {
    1 <= length <= 8 || length in {12, 16, 20, 24, 32, 48, 64}
  }

  /** codec_bits_mask: all ones in the low `length` bits. */
  function Mask(length: nat): (m: uint64)
    requires 1 <= length <= 64
    ensures m == Pow2(length) - 1
  {
    Pow2Facts();
    if length == 64 then 0xFFFF_FFFF_FFFF_FFFF else
      Pow2Mono(length, 63);
      Pow2(length) - 1
  }

  /** The two's complement reading of a 64-bit pattern. */
  function AsInt64(x: uint64): int64 {
    if x < INT64_LIMIT then x else x - UINT64_MODULUS
  }

  /** codec_bits_sign_extend: shift up to bit 63, shift back arithmetically. */
  function SignExtend(raw: uint64, length: nat): (n: int64)
    requires 1 <= length <= 64
  {
    if length == 64 then AsInt64(raw) else
      var shifted := AsInt64(raw * Pow2(64 - length) % UINT64_MODULUS);
      DivShrinks(shifted, Pow2(64 - length));
      shifted / Pow2(64 - length)
  }

  lemma DivShrinks(x: int, k: nat)
    requires k >= 1
    ensures x >= 0 ==> 0 <= x / k <= x
    ensures x < 0 ==> x <= x / k < 0
  {
    var q := x / k;
    if x >= 0 {
      MulMono(q, 1, k);
    } else {
      MulMono(-(q + 1), 1, k);
      assert k * (q + 1) == k * q + k;
    }
  }

  /** A pattern shifted up to bit 63 and back. */
  lemma ShiftUpAndBack(raw: nat, p: nat, k: nat)
    requires k >= 1 && p * k == UINT64_MODULUS && raw < p && p % 2 == 0
    ensures raw * k < UINT64_MODULUS
    ensures AsInt64(raw * k) / k == if raw < p / 2 then raw else raw - p
  {
    MulStep(k, raw, p);
    var h := p / 2;
    assert h * k == INT64_LIMIT by { assert p == 2 * h; assert p * k == 2 * (h * k); }
    if raw < h {
      MulStep(k, raw, h);
      DivUnique(raw * k, k, raw, 0);
    } else {
      MulMono(k, h, raw);
      assert raw * k - p * k == k * (raw - p);
      DivUnique(raw * k - UINT64_MODULUS, k, raw - p, 0);
    }
  }

  /** Sign extension is the two's complement value of the low `length` bits. */
  lemma SignExtendValue(raw: nat, length: nat)
    requires 1 <= length <= 64 && raw < Pow2(length)
    ensures raw < UINT64_MODULUS
    ensures SignExtend(raw, length) == if raw < Pow2(length - 1) then raw else raw - Pow2(length)
  {
    Pow2Facts();
    Pow2Mono(length, 64);
    if length < 64 {
      var k := Pow2(64 - length);
      Pow2Split(length, 64 - length);
      ShiftUpAndBack(raw, Pow2(length), k);
      DivUnique(raw * k, UINT64_MODULUS, 0, raw * k);
    }
  }

  /** The low `length` bits of the two's complement pattern of n: `(uint64_t)n & mask`. */
  function TwosComplement(n: int, length: nat): (raw: nat)
    requires 1 <= length <= 64
    ensures raw < Pow2(length)
  {
    n % UINT64_MODULUS % Pow2(length)
  }

  lemma TwosComplementMod(n: int, length: nat)
    requires 1 <= length <= 64
    ensures TwosComplement(n, length) == n % Pow2(length)
  {
    Pow2Facts();
    Pow2Split(length, 64 - length);
    ModOfMod(n, Pow2(length), Pow2(64 - length));
  }

  lemma ModOfMod(n: int, a: nat, b: nat)
    requires a >= 1 && b >= 1 && a * b >= 1
    ensures n % (a * b) % a == n % a
  {
    var q, r := n / (a * b), n % (a * b);
    var q1, r1 := r / a, r % a;
    assert n == a * (b * q + q1) + r1 by {
      assert n == (a * b) * q + r && r == a * q1 + r1;
      assert (a * b) * q == a * (b * q);
    }
    DivUnique(n, a, b * q + q1, r1);
  }

  /** Sign extension undoes the two's complement truncation of every number in range. */
  lemma SignExtendOfTwosComplement(n: int, length: nat)
    requires 1 <= length <= 64 && -Pow2(length - 1) <= n < Pow2(length - 1)
    ensures var raw := TwosComplement(n, length);
            raw < UINT64_MODULUS && SignExtend(raw, length) == n
  {
    TwosComplementMod(n, length);
    if n >= 0 { DivUnique(n, Pow2(length), 0, n); } else { DivUnique(n, Pow2(length), -1, n + Pow2(length)); }
    SignExtendValue(TwosComplement(n, length), length);
  }

  /** And truncation undoes sign extension of every pattern. */
  lemma TwosComplementOfSignExtend(raw: nat, length: nat)
    requires 1 <= length <= 64 && raw < Pow2(length)
    ensures raw < UINT64_MODULUS
    ensures -Pow2(length - 1) <= SignExtend(raw, length) < Pow2(length - 1)
    ensures TwosComplement(SignExtend(raw, length), length) == raw
  {
    SignExtendValue(raw, length);
    var n := SignExtend(raw, length);
    TwosComplementMod(n, length);
    if n >= 0 { DivUnique(n, Pow2(length), 0, raw); } else { DivUnique(n, Pow2(length), -1, raw); }
  }
}
