/**
 The signal encoder (core/codec/src/encoder.c).

 `Encoded` is the reference: one rule for every signal type, exact path or
 scaled path.  The methods follow the C control flow and are proved to agree
 with it.
 */
module Encoder {
  import opened Bits
  import opened CodecBits
  import opened CodecTypes
  import opened Words

  datatype Outcome = Rejected(status: Status) | Accepted(raw: nat, clamped: bool)

  // ---------------------------------------------------------------------------
  // Reference semantics
  // ---------------------------------------------------------------------------

  /** Conversion of a real to an integer discards the fraction. */
  function Trunc(q: real): int {
    if q >= 0.0 then q.Floor else -((-q).Floor)
  }

  /** codec_round_half_away; values outside the int64 range are returned unchanged. */
  function RoundHalfAway(q: real): real {
    if q >= INT64_LIMIT as real then q
    else if q < -INT64_LIMIT as real then q
    else if q >= 0.0 then Trunc(q + 0.5) as real
    else Trunc(q - 0.5) as real
  }

  /** The number a value denotes. */
  function Quantity(v: Value): real {
    match v
    case Unset => 0.0
    case Bool(b) => if b then 1.0 else 0.0
    case Int(i) => i as real
    case Uint(u) => u as real
    case Real(r) => r
  }

  /** Which value kinds a signal type takes. */
  predicate Takes(s: Signal, v: Value) {
    match s.kind
    case TypeBoolean => v.Bool? || v.Int? || v.Uint?
    case TypeEnum => v.Int? || v.Uint?
    case TypeUint => v.Uint? || (v.Real? && Scaled(s))
    case TypeInt => v.Int? || (v.Real? && Scaled(s))
  }

  predicate OutOfLimits(s: Signal, x: real) {
    (s.hasMin && x < s.min) || (s.hasMax && x > s.max)
  }

  function Clamp(s: Signal, x: real): real {
    var y := if s.hasMin && x < s.min then s.min else x;
    if s.hasMax && y > s.max then s.max else y
  }

  /** Least and greatest raw number of a signal type. */
  function RawLow(s: Signal): int
    requires Loadable(s)
  {
    if s.kind.TypeInt? then -Pow2(s.bitLength - 1) else 0
  }

  function RawHigh(s: Signal): int
    requires Loadable(s)
  {
    if s.kind.TypeInt? then Pow2(s.bitLength - 1) - 1 else Pow2(s.bitLength) - 1
  }

  /** The physical value on the raw scale, before the conversion to an integer. */
  function OnRawScale(s: Signal, y: real): real
    requires Loadable(s) && (s.kind.TypeUint? || s.kind.TypeInt?)
  {
    if Scaled(s) then RoundHalfAway((y - s.offset) / s.scale) else y
  }

  predicate Representable(s: Signal, x: real)
    requires Loadable(s)
  {
    && RawLow(s) as real <= x
    && if s.kind.TypeInt? || s.bitLength == 64 then x < (RawHigh(s) + 1) as real else x <= RawHigh(s) as real
  }

  function Encoded(s: Signal, v: Value): Outcome
    requires Loadable(s)
  {
    if !Takes(s, v) then Rejected(ErrArgument)
    else if s.kind.TypeBoolean? || s.kind.TypeEnum? then
      var n := Trunc(Quantity(v));
      if RawLow(s) <= n <= RawHigh(s) then Accepted(n, false) else Rejected(ErrRange)
    else if s.strict && OutOfLimits(s, Quantity(v)) then Rejected(ErrRange)
    else
      var y := Clamp(s, Quantity(v));
      var x := OnRawScale(s, y);
      if Representable(s, x) then Accepted(TwosComplement(Trunc(x), s.bitLength), y != Quantity(v))
      else Rejected(ErrRange)
  }

  /** The (status, *raw_out) pair of a C helper agrees with an outcome. */
  predicate Agrees(status: Status, raw: nat, o: Outcome) {
    match o
    case Rejected(st) => status == st
    case Accepted(r, clamped) => raw == r && status == if clamped then WarnValueClamped else Ok
  }

  lemma TruncOfInt(n: int)
    ensures Trunc(n as real) == n
  {
    if n < 0 { assert -(n as real) == (-n) as real; }
  }

  lemma TruncRange(x: real, bound: int)
    requires 0.0 <= x < bound as real
    ensures 0 <= Trunc(x) < bound
  {
  }

  lemma TwosComplementSmall(n: nat, length: nat)
    requires 1 <= length <= 64 && n < Pow2(length)
    ensures TwosComplement(n, length) == n
  {
    Pow2Facts();
    TwosComplementMod(n, length);
    DivUnique(n, Pow2(length), 0, n);
  }

  lemma CompareReal(a: int, b: int)
    ensures a as real <= b as real <==> a <= b
  {
  }

  /** Inside the int64 range, rounding yields a whole number. */
  lemma RoundWhole(q: real, k: int)
    requires 1 <= k <= INT64_LIMIT
    ensures RoundHalfAway(q) < k as real <==> RoundHalfAway(q) <= (k - 1) as real
  {
    CompareReal(k, INT64_LIMIT);
    CompareReal(-INT64_LIMIT, k - 1);
    if -INT64_LIMIT as real <= q < INT64_LIMIT as real {
      var n := if q >= 0.0 then Trunc(q + 0.5) else Trunc(q - 0.5);
      hide Trunc;
      assert RoundHalfAway(q) == n as real;
      CompareReal(n, k - 1);
      CompareReal(k, n);
    }
  }

  lemma RepresentableWhole(s: Signal, n: int)
    requires Loadable(s)
    ensures Representable(s, n as real) <==> RawLow(s) <= n <= RawHigh(s)
  {
    hide Pow2;
    CompareReal(RawLow(s), n);
    CompareReal(n, RawHigh(s));
    CompareReal(RawHigh(s) + 1, n);
  }

  /** The range checks of the scaled signed path. */
  lemma RepresentableRounded(s: Signal, q: real, half: int)
    requires Loadable(s) && s.kind.TypeInt? && half == Pow2(s.bitLength - 1)
    ensures half <= INT64_LIMIT && (s.bitLength == 64 ==> half == INT64_LIMIT)
    ensures Representable(s, RoundHalfAway(q)) <==>
              -half as real <= RoundHalfAway(q) &&
              if s.bitLength == 64 then RoundHalfAway(q) < INT64_LIMIT as real else RoundHalfAway(q) <= (half - 1) as real
  {
    Pow2Facts();
    Pow2Mono(s.bitLength - 1, 63);
    RoundWhole(q, half);
    hide RoundHalfAway, Pow2;
  }

  lemma NumericOutcome(s: Signal, v: Value, y: real, x: real)
    requires Loadable(s) && (s.kind.TypeUint? || s.kind.TypeInt?) && Takes(s, v)
    requires !(s.strict && OutOfLimits(s, Quantity(v)))
    requires y == Clamp(s, Quantity(v)) && x == OnRawScale(s, y)
    ensures Encoded(s, v) == if Representable(s, x) then Accepted(TwosComplement(Trunc(x), s.bitLength), y != Quantity(v))
                             else Rejected(ErrRange)
  {
  }

  lemma OutcomeFits(s: Signal, v: Value)
    requires Loadable(s) && Encoded(s, v).Accepted?
    ensures Encoded(s, v).raw < Pow2(s.bitLength)
    ensures Encoded(s, v).raw < UINT64_MODULUS
  {
    Pow2Facts();
    Pow2Mono(s.bitLength, 64);
  }

  // ---------------------------------------------------------------------------
  // The C helpers
  // ---------------------------------------------------------------------------

  method ApplyLimits(s: Signal, physical: real) returns (status: Status, adjusted: real)
    ensures s.strict && OutOfLimits(s, physical) ==> status == ErrRange && adjusted == physical
    ensures !(s.strict && OutOfLimits(s, physical)) ==>
              adjusted == Clamp(s, physical) && status == if adjusted != physical then WarnValueClamped else Ok
  {
    adjusted := physical;
    var clamped := physical;
    if s.hasMin && clamped < s.min {
      if s.strict { return ErrRange, adjusted; }
      clamped := s.min;
    }
    if s.hasMax && clamped > s.max {
      if s.strict { return ErrRange, adjusted; }
      clamped := s.max;
    }
    if clamped != physical {
      adjusted := clamped;
      return WarnValueClamped, adjusted;
    }
    status := Ok;
  }

  method EncodeBoolean(s: Signal, v: Value) returns (status: Status, raw: uint64)
    requires Loadable(s) && s.kind.TypeBoolean?
    ensures Agrees(status, raw, Encoded(s, v))
  {
    raw := 0;
    var bit: uint64;
    match v {
      case Bool(b) => bit := if b then 1 else 0;
      case Int(i) => bit := i % UINT64_MODULUS; TruncOfInt(i);
      case Uint(u) => bit := u; TruncOfInt(u);
      case _ => return ErrArgument, raw;
    }
    assert Pow2(1) == 2;
    if bit > 1 { return ErrRange, raw; }
    return Ok, bit;
  }

  method EncodeEnum(s: Signal, v: Value) returns (status: Status, raw: uint64)
    requires Loadable(s) && s.kind.TypeEnum?
    ensures Agrees(status, raw, Encoded(s, v))
  {
    raw := 0;
    var mask := Mask(s.bitLength);
    var n: uint64;
    match v {
      case Int(i) =>
        TruncOfInt(i);
        if i < 0 { return ErrRange, raw; }
        n := i;
      case Uint(u) => n := u; TruncOfInt(u);
      case _ => return ErrArgument, raw;
    }
    if n > mask { return ErrRange, raw; }
    return Ok, n;
  }

  /** codec_encode_uint, the exact integer path (encoder.c:167-198). */
  method EncodeUintExact(s: Signal, v: Value) returns (status: Status, raw: uint64)
    requires Loadable(s) && s.kind.TypeUint? && v.Uint? && !Scaled(s)
    ensures Agrees(status, raw, Encoded(s, v))
  {
    raw := 0;
    var mask := Mask(s.bitLength);
    var physical: real;
    status, physical := ApplyLimits(s, v.u as real);
    if status == ErrRange { return; }
    NumericOutcome(s, v, physical, physical);
    hide Encoded, TwosComplement, Trunc, Clamp, Pow2;
    if status == WarnValueClamped {
      if physical < 0.0 { return ErrRange, raw; }
      if s.bitLength < 64 && physical > mask as real { return ErrRange, raw; }
      if s.bitLength == 64 && physical >= UINT64_MODULUS as real { return ErrRange, raw; }
      CompareReal(mask as int + 1, mask as int);
      TruncRange(physical, mask as int + 1);
      raw := Trunc(physical);
      TwosComplementSmall(raw, s.bitLength);
      return;
    }
    TruncOfInt(v.u);
    RepresentableWhole(s, v.u);
    hide Representable;
    if s.bitLength < 64 && v.u > mask { return ErrRange, raw; }
    TwosComplementSmall(v.u, s.bitLength);
    return Ok, v.u;
  }

  method EncodeUint(s: Signal, v: Value) returns (status: Status, raw: uint64)
    requires Loadable(s) && s.kind.TypeUint?
    ensures Agrees(status, raw, Encoded(s, v))
  {
    raw := 0;
    var scaled := s.scale != 1.0 || s.offset != 0.0;
    var mask := Mask(s.bitLength);
    var physical: real;
    if v.Uint? && !scaled {
      status, raw := EncodeUintExact(s, v);
      return;
    }
    if v.Uint? {
      physical := v.u as real;
    } else if v.Real? && scaled {
      physical := v.r;
    } else {
      return ErrArgument, raw;
    }
    status, physical := ApplyLimits(s, physical);
    if status == ErrRange { return; }
    var rawD := RoundHalfAway((physical - s.offset) / s.scale);
    NumericOutcome(s, v, physical, rawD);
    hide Encoded, TwosComplement, Trunc, Clamp, Pow2, RoundHalfAway;
    if rawD < 0.0 { return ErrRange, raw; }
    if s.bitLength < 64 {
      if rawD > mask as real { return ErrRange, raw; }
    } else {
      if rawD >= UINT64_MODULUS as real { return ErrRange, raw; }
    }
    CompareReal(mask as int + 1, mask as int);
    TruncRange(rawD, mask as int + 1);
    raw := Trunc(rawD);
    TwosComplementSmall(raw, s.bitLength);
  }

  /** codec_encode_int, the exact integer path (encoder.c:255-281). */
  method EncodeIntExact(s: Signal, v: Value) returns (status: Status, raw: uint64)
    requires Loadable(s) && s.kind.TypeInt? && v.Int? && !Scaled(s)
    ensures Agrees(status, raw, Encoded(s, v))
  {
    raw := 0;
    var half := Pow2(s.bitLength - 1);
    var physical: real;
    Pow2Facts();
    Pow2Mono(s.bitLength - 1, 63);
    Pow2Mono(s.bitLength, 64);
    status, physical := ApplyLimits(s, v.i as real);
    if status == ErrRange { return; }
    NumericOutcome(s, v, physical, physical);
    hide Encoded, TwosComplement, Trunc, Clamp, Pow2;
    if status == WarnValueClamped {
      if physical < -half as real || physical >= half as real { return ErrRange, raw; }
      raw := TwosComplement(Trunc(physical), s.bitLength);
      return;
    }
    TruncOfInt(v.i);
    RepresentableWhole(s, v.i);
    hide Representable;
    if s.bitLength != 64 && (v.i < -half || v.i > half - 1) { return ErrRange, raw; }
    raw := TwosComplement(v.i, s.bitLength);
    return Ok, raw;
  }

  method EncodeInt(s: Signal, v: Value) returns (status: Status, raw: uint64)
    requires Loadable(s) && s.kind.TypeInt?
    ensures Agrees(status, raw, Encoded(s, v))
  {
    raw := 0;
    var scaled := s.scale != 1.0 || s.offset != 0.0;
    var half := Pow2(s.bitLength - 1);
    var physical: real;
    if v.Int? && !scaled {
      status, raw := EncodeIntExact(s, v);
      return;
    }
    if v.Int? {
      physical := v.i as real;
    } else if v.Real? && scaled {
      physical := v.r;
    } else {
      return ErrArgument, raw;
    }
    status, physical := ApplyLimits(s, physical);
    if status == ErrRange { return; }
    var rawD := RoundHalfAway((physical - s.offset) / s.scale);
    NumericOutcome(s, v, physical, rawD);
    RepresentableRounded(s, (physical - s.offset) / s.scale, half);
    assert Pow2(s.bitLength) == 2 * half;
    hide Encoded, TwosComplement, Trunc, Clamp, Pow2, RoundHalfAway, Representable;
    if s.bitLength == 64 {
      if rawD < -half as real || rawD >= INT64_LIMIT as real { return ErrRange, raw; }
    } else {
      if rawD < -half as real || rawD > (half - 1) as real { return ErrRange, raw; }
    }
    raw := TwosComplement(Trunc(rawD), s.bitLength);
  }

  // ---------------------------------------------------------------------------
  // cancestry_codec_encode_signal
  // ---------------------------------------------------------------------------

  /** The status of an encode call, in the order in which the checks are made. */
  function EncodeStatus(s: Signal, v: Value, length: nat): Status
    requires Loadable(s)
  {
    if !FrameLengthOk(length) then ErrArgument
    else if !Fits(PlacementOf(s), length) then ErrFrameTooShort
    else match Encoded(s, v)
         case Rejected(st) => st
         case Accepted(_, clamped) => if clamped then WarnValueClamped else Ok
  }

  /** One successful encode, as a relation between the frames before and after it. */
  ghost predicate Encodes(s: Signal, v: Value, before: seq<byte>, after: seq<byte>)
    requires Loadable(s)
  {
    && Fits(PlacementOf(s), |before|)
    && Encoded(s, v).Accepted?
    && Stored(before, after, PlacementOf(s), Encoded(s, v).raw)
  }

  function Clamped(c: Counters): Counters { c.(valueClamped := U32(c.valueClamped + 1)) }

  method EncodeSignal(s: Signal, v: Value, frame: array?<byte>, warnings: Warnings?) returns (status: Status)
    requires Loadable(s)
    modifies frame, warnings
    ensures frame == null ==> status == ErrNull
    ensures frame != null ==> status == EncodeStatus(s, v, frame.Length)
    ensures frame != null && status.IsError() ==> frame[..] == old(frame[..])
    ensures frame != null && !status.IsError() ==> Encodes(s, v, old(frame[..]), frame[..])
    ensures warnings != null ==>
              warnings.at == if status == WarnValueClamped then Clamped(old(warnings.at)) else old(warnings.at)
  {
    if frame == null { return ErrNull; }
    if !FrameLengthOk(frame.Length) { return ErrArgument; }
    if s.layout.Sawtooth? {
      var fits := SawFits(frame.Length, s.startBit, s.bitLength);
      if !fits { return ErrFrameTooShort; }
    } else {
      if s.lastBit >= frame.Length * 8 { return ErrFrameTooShort; }
    }
    var raw: uint64;
    EncodedStatus(s, v);
    match s.kind {
      case TypeBoolean => status, raw := EncodeBoolean(s, v);
      case TypeEnum => status, raw := EncodeEnum(s, v);
      case TypeUint => status, raw := EncodeUint(s, v);
      case TypeInt => status, raw := EncodeInt(s, v);
    }
    hide Encoded;
    if status.IsError() { return; }
    if s.layout.Sawtooth? {
      StoreSaw(frame, s.startBit, s.bitLength, raw);
    } else {
      StoreRun(frame, s.firstBit, s.bitLength, raw);
    }
    if status == WarnValueClamped && warnings != null {
      warnings.at := Clamped(warnings.at);
    }
  }

  lemma EncodedStatus(s: Signal, v: Value)
    requires Loadable(s)
    ensures Encoded(s, v).Rejected? ==> Encoded(s, v).status.IsError()
  {
  }
}
