/** Encoding and decoding are inverse: one signal, then whole messages. */
module RoundTrip {
  import opened Bits
  import opened CodecTypes
  import opened Encoder
  import opened Decoder
  import opened Words
  import opened Wrappers

  /** Signals whose physical value is their raw number. */
  predicate Plain(s: Signal) { s.kind.TypeBoolean? || s.kind.TypeEnum? || !Scaled(s) }

  /** The decoder's value kind for the number v denotes. */
  function Canonical(s: Signal, v: Value): Value
    requires Loadable(s) && Plain(s) && Encoded(s, v).Accepted?
  {
    match s.kind
    case TypeBoolean => Bool(Quantity(v) == 1.0)
    case TypeEnum => EnumBound(s, v); Int(AsInt64(Encoded(s, v).raw))
    case TypeUint => Uint(if v.Uint? then v.u else 0)
    case TypeInt => Int(if v.Int? then v.i else 0)
  }

  lemma EnumBound(s: Signal, v: Value)
    requires Loadable(s) && s.kind.TypeEnum? && Encoded(s, v).Accepted?
    ensures Encoded(s, v).raw < UINT64_MODULUS
  {
    OutcomeFits(s, v);
  }

  /** An unsigned number that needs bit 63. */
  predicate TopBit(v: Value) { v.Uint? && v.u >= INT64_LIMIT }

  /**
   Decoding what the encoder accepted without clamping gives back the number,
   for every unscaled signal of any width -- except for an enum encoded from an
   unsigned number of at least 2^63, which the decoder reports as negative.
   */
  lemma ExactRoundTrip(s: Signal, v: Value)
    requires Loadable(s) && Plain(s) && Encoded(s, v).Accepted? && !Encoded(s, v).clamped
    ensures Encoded(s, v).raw < UINT64_MODULUS
    ensures Quantity(DecodedValue(s, Encoded(s, v).raw)) == Quantity(v)
            <==> !(s.kind.TypeEnum? && TopBit(v))
    ensures s.kind.TypeEnum? ==> (TopBit(v) <==> Encoded(s, v).raw >= INT64_LIMIT)
    ensures DecodedValue(s, Encoded(s, v).raw) == Canonical(s, v)
  {
    OutcomeFits(s, v);
    WholeQuantity(s, v);
    match s.kind {
      case TypeInt =>
        var n := Trunc(Quantity(v));
        RepresentableWhole(s, n);
        SignExtendOfTwosComplement(n, s.bitLength);
        hide Pow2, SignExtend, TwosComplement, Trunc;
      case TypeUint =>
        var n := Trunc(Quantity(v));
        RepresentableWhole(s, n);
        TwosComplementSmall(n, s.bitLength);
        hide Pow2, TwosComplement, Trunc;
      case TypeBoolean => assert Pow2(1) == 2;
      case TypeEnum =>
    }
  }

  /** An enum of 64 bits. */
  const WIDE_ENUM :=
    Signal("e", 0, 64, TypeEnum, 1.0, 0.0, Some([Mapping(0, "off")]), false, 0.0, false, 0.0, true, 0, 63, Contiguous)

  /** 2^63 is accepted by it, decodes to -2^63, and that is refused. */
  lemma WideEnumTurnsNegative()
    ensures Loadable(WIDE_ENUM) && Encoded(WIDE_ENUM, Uint(INT64_LIMIT)) == Accepted(INT64_LIMIT, false)
    ensures DecodedValue(WIDE_ENUM, INT64_LIMIT) == Int(-INT64_LIMIT)
    ensures Encoded(WIDE_ENUM, Int(-INT64_LIMIT)).Rejected?
  {
    Pow2Facts();
    TruncOfInt(INT64_LIMIT);
    TruncOfInt(-INT64_LIMIT);
    hide Pow2, Trunc;
  }

  lemma WholeQuantity(s: Signal, v: Value)
    requires Loadable(s) && Plain(s) && Takes(s, v)
    ensures v.Int? || v.Uint? || v.Bool?
    ensures Quantity(v) == Trunc(Quantity(v)) as real
    ensures v.Int? ==> Trunc(Quantity(v)) == v.i
    ensures v.Uint? ==> Trunc(Quantity(v)) == v.u
  {
    if v.Int? { TruncOfInt(v.i); }
    if v.Uint? { TruncOfInt(v.u); }
  }

  /**
   Re-encoding a decoded word reproduces the word, for every word of the width,
   scaled or not, when no limits are declared -- except an enum word with bit 63
   set, whose negative reading the encoder refuses.
   */
  lemma EncodeOfDecode(s: Signal, raw: uint64)
    requires Loadable(s) && raw < Pow2(s.bitLength) && !s.hasMin && !s.hasMax
    ensures Encoded(s, DecodedValue(s, raw)) == Accepted(raw, false)
            <==> !(s.kind.TypeEnum? && raw >= INT64_LIMIT)
  {
    match s.kind {
      case TypeBoolean => assert Pow2(1) == 2;
      case TypeEnum => TruncOfInt(AsInt64(raw));
      case TypeUint => NumericReencode(s, raw, raw); TwosComplementSmall(raw, s.bitLength);
      case TypeInt =>
        TwosComplementOfSignExtend(raw, s.bitLength);
        NumericReencode(s, raw, SignExtend(raw, s.bitLength));
    }
  }

  /** n is the number raw stands for. */
  lemma NumericReencode(s: Signal, raw: uint64, n: int)
    requires Loadable(s) && raw < Pow2(s.bitLength) && !s.hasMin && !s.hasMax
    requires s.kind.TypeUint? || s.kind.TypeInt?
    requires n == if s.kind.TypeInt? then SignExtend(raw, s.bitLength) else raw
    requires RawLow(s) <= n <= RawHigh(s)
    ensures Encoded(s, DecodedValue(s, raw)) == Accepted(TwosComplement(n, s.bitLength), false)
  {
    var v := DecodedValue(s, raw);
    DecodedOnRawScale(s, raw, n);
    TruncOfInt(n);
    RepresentableWhole(s, n);
    hide Pow2, SignExtend, TwosComplement, OnRawScale, DecodedValue, Trunc;
    NumericOutcome(s, v, Quantity(v), n as real);
  }

  lemma DecodedOnRawScale(s: Signal, raw: uint64, n: int)
    requires Loadable(s) && (s.kind.TypeUint? || s.kind.TypeInt?)
    requires n == if s.kind.TypeInt? then SignExtend(raw, s.bitLength) else raw
    ensures Takes(s, DecodedValue(s, raw))
    ensures OnRawScale(s, Quantity(DecodedValue(s, raw))) == n as real
  {
    hide SignExtend;
    var y := Quantity(DecodedValue(s, raw));
    if Scaled(s) {
      ScaleInverse(y, n as real, s.scale, s.offset);
      RoundOfWhole(n);
      hide RoundHalfAway;
    }
  }

  lemma ScaleInverse(y: real, x: real, scale: real, offset: real)
    requires scale != 0.0 && y == x * scale + offset
    ensures (y - offset) / scale == x
  {
  }

  lemma FloorOfHalf(n: nat)
    ensures (n as real + 0.5).Floor == n
  {
    var f := (n as real + 0.5).Floor;
    if f < n { CompareReal(f + 1, n); }
    if f > n { CompareReal(n + 1, f); }
  }

  lemma RoundOfWhole(n: int)
    ensures RoundHalfAway(n as real) == n as real
  {
    if n >= 0 { FloorOfHalf(n); } else {
      FloorOfHalf(-n);
      assert -(n as real - 0.5) == (-n) as real + 0.5;
    }
  }

  /** Rounding moves a value by at most one half. */
  lemma RoundNearest(q: real)
    ensures -0.5 <= RoundHalfAway(q) - q <= 0.5
  {
    if -INT64_LIMIT as real <= q < INT64_LIMIT as real {
      if q >= 0.0 {
        FloorBounds(q + 0.5);
      } else {
        FloorBounds(-(q - 0.5));
      }
    }
  }

  lemma FloorBounds(x: real)
    ensures x.Floor as real <= x < x.Floor as real + 1.0
  {
  }
}
