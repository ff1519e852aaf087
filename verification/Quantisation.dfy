/** What scaling, rounding and clamping do to a physical value. */
module Quantisation {
  import opened Bits
  import opened CodecTypes
  import opened Encoder
  import opened Decoder
  import opened RoundTrip
  import opened Words
  import opened Wrappers

  predicate Numeric(s: Signal) { s.kind.TypeUint? || s.kind.TypeInt? }

  /** The number a raw number stands for. */
  function PhysicalOf(s: Signal, n: int): real {
    if Scaled(s) then n as real * s.scale + s.offset else n as real
  }

  /** What a physical value turns into on the wire. */
  function Image(s: Signal, y: real): real
    requires Loadable(s) && Numeric(s)
  {
    PhysicalOf(s, Trunc(OnRawScale(s, y)))
  }

  /** Decoding an accepted value gives the image of the clamped value. */
  lemma DecodedIsImage(s: Signal, v: Value)
    requires Loadable(s) && Numeric(s) && Encoded(s, v).Accepted?
    ensures Encoded(s, v).raw < UINT64_MODULUS
    ensures Quantity(DecodedValue(s, Encoded(s, v).raw)) == Image(s, Clamp(s, Quantity(v)))
  {
    OutcomeFits(s, v);
    var y := Clamp(s, Quantity(v));
    var x := OnRawScale(s, y);
    AcceptedNumeric(s, v, y, x);
    RepresentableTrunc(s, x);
    hide OnRawScale, Clamp, Encoded, Trunc, DecodedValue, PhysicalOf, TwosComplement, SignExtend;
    var n := Trunc(x);
    if s.kind.TypeInt? {
      SignExtendOfTwosComplement(n, s.bitLength);
    } else {
      TwosComplementSmall(n, s.bitLength);
    }
    DecodedPhysical(s, Encoded(s, v).raw, n);
  }

  lemma AcceptedNumeric(s: Signal, v: Value, y: real, x: real)
    requires Loadable(s) && Numeric(s) && Encoded(s, v).Accepted?
    requires y == Clamp(s, Quantity(v)) && x == OnRawScale(s, y)
    ensures Representable(s, x)
    ensures Encoded(s, v).raw == TwosComplement(Trunc(x), s.bitLength)
  {
    hide OnRawScale, Clamp, TwosComplement, Trunc, Representable;
  }

  lemma DecodedPhysical(s: Signal, raw: uint64, n: int)
    requires Loadable(s) && Numeric(s)
    requires n == if s.kind.TypeInt? then SignExtend(raw, s.bitLength) else raw
    ensures Quantity(DecodedValue(s, raw)) == PhysicalOf(s, n)
  {
    hide SignExtend;
  }

  lemma RepresentableTrunc(s: Signal, x: real)
    requires Loadable(s) && Representable(s, x)
    ensures RawLow(s) <= Trunc(x) <= RawHigh(s)
  {
    var lo, hi := RawLow(s), RawHigh(s);
    assert lo <= 0 <= hi;
    CompareReal(hi, hi + 1);
    assert x < (hi + 1) as real;
    hide Representable, RawLow, RawHigh;
    TruncWithin(x, lo, hi);
  }

  lemma TruncWithin(x: real, lo: int, hi: int)
    requires lo <= 0 <= hi && lo as real <= x < (hi + 1) as real
    ensures lo <= Trunc(x) <= hi
  {
    var n := Trunc(x);
    if n > hi { CompareReal(hi + 1, n); }
    if n < lo { CompareReal(n, lo - 1); }
  }

  lemma TruncWhole(n: int, x: real)
    requires x == n as real
    ensures Trunc(x) as real == x
  {
    TruncOfInt(n);
  }

  /** The quotient that is rounded to the raw scale. */
  function Quotient(s: Signal, y: real): real
    requires s.scale != 0.0
  {
    (y - s.offset) / s.scale
  }

  /**
   Quantisation bound: a value accepted without clamping comes back within half
   a step, at every width, exactly when its quotient is below 2^63, where it is
   rounded, or its fraction is at most one half, because above it is cut off.
   */
  lemma QuantisationBoundIff(s: Signal, v: Value)
    requires Loadable(s) && Numeric(s) && Scaled(s)
    requires Encoded(s, v).Accepted? && !Encoded(s, v).clamped
    ensures Encoded(s, v).raw < UINT64_MODULUS
    ensures var q := Quotient(s, Quantity(v));
      HalfStepApart(s, Quantity(DecodedValue(s, Encoded(s, v).raw)), Quantity(v))
      <==> q < INT64_LIMIT as real || q - Trunc(q) as real <= 0.5
  {
    DecodedIsImage(s, v);
    var y := Quantity(v);
    AcceptedNumeric(s, v, y, OnRawScale(s, y));
    hide HalfStepApart, Image, Representable, OnRawScale, Scaled, DecodedValue, Trunc, Quotient;
    NearImageIff(s, y);
  }

  /** A 64-bit signal in steps of two, and the value 2 * (2^63 + 3/4). */
  const WIDE := Signal("wide", 0, 64, TypeUint, 2.0, 0.0, None, false, 0.0, false, 0.0, true, 0, 63, Contiguous)
  const BETWEEN_STEPS := 2.0 * (INT64_LIMIT as real + 0.75)

  /** It is accepted and comes back three quarters of a step away. */
  lemma CutOffLeavesHalfStep()
    ensures Loadable(WIDE) && Encoded(WIDE, Real(BETWEEN_STEPS)).Accepted?
    ensures Encoded(WIDE, Real(BETWEEN_STEPS)).raw < UINT64_MODULUS
    ensures !HalfStepApart(WIDE, Quantity(DecodedValue(WIDE, Encoded(WIDE, Real(BETWEEN_STEPS)).raw)), BETWEEN_STEPS)
  {
    hide Trunc, OnRawScale, Quotient, Representable, HalfStepApart, DecodedValue, RoundHalfAway, TwosComplement, Pow2;
    var q := INT64_LIMIT as real + 0.75;
    WideOnScale(q);
    WideRepresents(q);
    CutOff(q);
    WideAccepts(BETWEEN_STEPS, q);
    QuantisationBoundIff(WIDE, Real(BETWEEN_STEPS));
  }

  lemma WideOnScale(q: real)
    requires q >= INT64_LIMIT as real
    ensures Quotient(WIDE, 2.0 * q) == q && OnRawScale(WIDE, 2.0 * q) == q
  {
  }

  lemma WideAccepts(y: real, x: real)
    requires OnRawScale(WIDE, y) == x && Representable(WIDE, x)
    ensures Encoded(WIDE, Real(y)).Accepted? && !Encoded(WIDE, Real(y)).clamped
  {
    hide Trunc, OnRawScale, Representable, TwosComplement;
    assert Quantity(Real(y)) == y == Clamp(WIDE, y);
  }

  lemma WideRepresents(q: real)
    requires 0.0 <= q < UINT64_MODULUS as real
    ensures Representable(WIDE, q)
  {
    Pow2Facts();
    hide Pow2;
  }

  lemma CutOff(q: real)
    requires q == INT64_LIMIT as real + 0.75
    ensures Trunc(q) == INT64_LIMIT
  {
    FloorBounds(q);
    if q.Floor > INT64_LIMIT { CompareReal(INT64_LIMIT + 1, q.Floor); }
    if q.Floor < INT64_LIMIT { CompareReal(q.Floor, INT64_LIMIT - 1); }
  }

  predicate HalfStepApart(s: Signal, a: real, b: real) {
    var step := if s.scale >= 0.0 then s.scale else -s.scale;
    -step / 2.0 <= a - b <= step / 2.0
  }

  /** The physical value of a raw number, whole or not. */
  function Stepped(s: Signal, x: real): real { x * s.scale + s.offset }

  lemma NearImageIff(s: Signal, y: real)
    requires Loadable(s) && Numeric(s) && Scaled(s) && Representable(s, OnRawScale(s, y))
    ensures var q := Quotient(s, y);
      HalfStepApart(s, Image(s, y), y) <==> q < INT64_LIMIT as real || q - Trunc(q) as real <= 0.5
  {
    var q := Quotient(s, y);
    assert OnRawScale(s, y) == RoundHalfAway(q);
    var n := Trunc(RoundHalfAway(q));
    RoundedQuotient(s, q);
    hide Trunc, OnRawScale, Representable, HalfStepApart, Loadable, Stepped, PhysicalOf, RoundHalfAway;
    PhysicalIsStepped(s, n);
    HalfStepIff(s, n as real, q, y);
  }

  /** Below 2^63 the raw number is the nearest one, above it is the one below. */
  lemma RoundedQuotient(s: Signal, q: real)
    requires Loadable(s) && Numeric(s) && Representable(s, RoundHalfAway(q))
    ensures var n := Trunc(RoundHalfAway(q)) as real;
      -0.5 <= n - q <= 0.5 <==> q < INT64_LIMIT as real || q - Trunc(q) as real <= 0.5
  {
    RoundNearest(q);
    NotFarBelow(s, q);
    if q < INT64_LIMIT as real {
      RoundedWholeBelow(q);
    } else {
      FloorBounds(q);
    }
  }

  lemma NotFarBelow(s: Signal, q: real)
    requires Loadable(s) && Representable(s, RoundHalfAway(q))
    ensures -INT64_LIMIT as real <= q
  {
    Pow2Facts();
    if s.kind.TypeInt? { Pow2Mono(s.bitLength - 1, 63); }
    CompareReal(-INT64_LIMIT, RawLow(s));
    hide Pow2, RawLow, RawHigh;
  }

  lemma RoundedWholeBelow(q: real)
    requires -INT64_LIMIT as real <= q < INT64_LIMIT as real
    ensures Trunc(RoundHalfAway(q)) as real == RoundHalfAway(q)
  {
    TruncWhole(if q >= 0.0 then Trunc(q + 0.5) else Trunc(q - 0.5), RoundHalfAway(q));
  }

  lemma PhysicalIsStepped(s: Signal, n: int)
    requires Scaled(s)
    ensures PhysicalOf(s, n) == Stepped(s, n as real)
  {
  }

  function Times(a: real, b: real): real { a * b }

  lemma HalfStepIff(s: Signal, x: real, q: real, y: real)
    requires s.scale != 0.0 && q == Quotient(s, y)
    ensures HalfStepApart(s, Stepped(s, x), y) <==> -0.5 <= x - q <= 0.5
  {
    Distance(s, x, q, y);
    hide Times, Stepped, Quotient;
    if s.scale > 0.0 {
      BetweenIff(x - q, s.scale);
    } else {
      BetweenIff(q - x, -s.scale);
      Negated(x - q, s.scale);
    }
  }

  lemma Negated(d: real, w: real)
    ensures Times(-d, -w) == Times(d, w)
  {
  }

  lemma Distance(s: Signal, x: real, q: real, y: real)
    requires s.scale != 0.0 && q == Quotient(s, y)
    ensures Stepped(s, x) - y == Times(x - q, s.scale)
  {
    QuotientTimes(y - s.offset, s.scale);
    Distributed(x, q, s.scale);
  }

  lemma QuotientTimes(a: real, b: real)
    requires b != 0.0
    ensures a / b * b == a
  {
  }

  lemma Distributed(x: real, q: real, w: real)
    ensures Times(x - q, w) == x * w - q * w
  {
  }

  lemma BetweenIff(d: real, w: real)
    requires w > 0.0
    ensures -w / 2.0 <= Times(d, w) <= w / 2.0 <==> -0.5 <= d <= 0.5
  {
    Distributed(0.5, d, w);
    Distributed(d, -0.5, w);
    SignOf(0.5 - d, w);
    SignOf(d + 0.5, w);
  }

  /** The sign of a product. */
  lemma SignOf(d: real, w: real)
    requires w != 0.0
    ensures w > 0.0 ==> (Times(d, w) >= 0.0 <==> d >= 0.0)
    ensures w < 0.0 ==> (Times(d, w) >= 0.0 <==> d <= 0.0)
  {
    if w > 0.0 {
      if d >= 0.0 { NonNegative(d, w); } else { Positive(-d, w); Negated(d, -w); Negated(-d, w); }
    } else {
      if d <= 0.0 { NonNegative(-d, -w); Negated(d, w); } else { Positive(d, -w); }
    }
  }

  lemma Positive(a: real, b: real)
    requires a > 0.0 && b > 0.0
    ensures Times(a, b) > 0.0 && Times(-a, b) < 0.0 && Times(a, -b) < 0.0
  {
  }

  lemma NonNegative(a: real, b: real)
    requires a >= 0.0 && b >= 0.0
    ensures Times(a, b) >= 0.0
  {
  }

  // ---------------------------------------------------------------------------
  // Declared limits
  // ---------------------------------------------------------------------------

  predicate InLimits(s: Signal, x: real) {
    (s.hasMin ==> s.min <= x) && (s.hasMax ==> x <= s.max)
  }

  /** Every accepted value decodes inside the declared limits. */
  ghost predicate HonoursLimits(s: Signal)
    requires Loadable(s) && Numeric(s)
  {
    forall v | Encoded(s, v).Accepted? :: InLimits(s, Image(s, Clamp(s, Quantity(v))))
  }

  /** No value is between the limits. */
  predicate Crossed(s: Signal) { s.hasMin && s.hasMax && s.min > s.max }

  /** The raw number that a quotient becomes is not below it, or not above it. */
  predicate RoundsUp(q: real) { Trunc(RoundHalfAway(q)) as real >= q }

  predicate RoundsDown(q: real) { Trunc(RoundHalfAway(q)) as real <= q }

  /** Which way that is, by the fraction. */
  lemma RoundsUpIff(q: real)
    requires -INT64_LIMIT as real <= q < INT64_LIMIT as real
    ensures var f := if q >= 0.0 then q - Trunc(q) as real else Trunc(q) as real - q;
      && (RoundsUp(q) <==> if q >= 0.0 then f == 0.0 || f >= 0.5 else f < 0.5)
      && (RoundsDown(q) <==> if q >= 0.0 then f < 0.5 else f == 0.0 || f >= 0.5)
  {
    RoundedWholeBelow(q);
    if q >= 0.0 {
      HalfUp(q);
    } else {
      HalfUp(-q);
      assert -(q - 0.5) == -q + 0.5;
    }
  }

  lemma HalfUp(x: real)
    requires x >= 0.0
    ensures (x + 0.5).Floor == if x - x.Floor as real >= 0.5 then x.Floor + 1 else x.Floor
  {
    FloorBounds(x);
    FloorBounds(x + 0.5);
    var f, g := x.Floor, (x + 0.5).Floor;
    if g > f + 1 { CompareReal(f + 2, g); }
    if g < f { CompareReal(g + 1, f); }
  }

  /** A limit does not encode, or its encoding lies inside. */
  predicate MinRoundsIn(s: Signal)
    requires Loadable(s) && Numeric(s) && Scaled(s)
  {
    Representable(s, OnRawScale(s, s.min)) ==>
      if s.scale > 0.0 then RoundsUp(Quotient(s, s.min)) else RoundsDown(Quotient(s, s.min))
  }

  predicate MaxRoundsIn(s: Signal)
    requires Loadable(s) && Numeric(s) && Scaled(s)
  {
    Representable(s, OnRawScale(s, s.max)) ==>
      if s.scale > 0.0 then RoundsDown(Quotient(s, s.max)) else RoundsUp(Quotient(s, s.max))
  }

  /**
   A scaled signal honours its limits, whichever it declares, exactly when each
   limit that encodes rounds inwards on the raw scale.  Crossed limits are
   honoured only if nothing is accepted at all.
   */
  lemma HonoursLimitsIff(s: Signal)
    requires Loadable(s) && Numeric(s) && Scaled(s)
    ensures HonoursLimits(s) <==>
            if Crossed(s) then s.strict || !Representable(s, OnRawScale(s, s.max))
            else (s.hasMin ==> MinRoundsIn(s)) && (s.hasMax ==> MaxRoundsIn(s))
  {
    hide MinRoundsIn, MaxRoundsIn, HonoursLimits;
    if Crossed(s) {
      CrossedLimits(s);
    } else {
      if s.hasMin && !MinRoundsIn(s) { LimitEscapes(s, s.min); }
      if s.hasMax && !MaxRoundsIn(s) { LimitEscapes(s, s.max); }
      if (s.hasMin ==> MinRoundsIn(s)) && (s.hasMax ==> MaxRoundsIn(s)) { LimitsKept(s); }
    }
  }

  /** With crossed limits every value is refused or becomes the maximum. */
  lemma CrossedLimits(s: Signal)
    requires Loadable(s) && Numeric(s) && Crossed(s)
    ensures HonoursLimits(s) <==> s.strict || !Representable(s, OnRawScale(s, s.max))
  {
    hide Representable, OnRawScale, Image;
    var v := if s.kind.TypeInt? then Int(0) else Uint(0);
    assert Clamp(s, Quantity(v)) == s.max;
    if !s.strict && Representable(s, OnRawScale(s, s.max)) {
      assert Encoded(s, v).Accepted? && !InLimits(s, Image(s, s.max));
    } else {
      forall w ensures !Encoded(s, w).Accepted? { CrossedRefuses(s, w); }
    }
  }

  lemma CrossedRefuses(s: Signal, w: Value)
    requires Loadable(s) && Numeric(s) && Crossed(s) && (s.strict || !Representable(s, OnRawScale(s, s.max)))
    ensures !Encoded(s, w).Accepted?
  {
    hide Representable, OnRawScale;
    assert Clamp(s, Quantity(w)) == s.max;
  }

  /** The limit itself is a value that leaves the limits. */
  lemma LimitEscapes(s: Signal, limit: real)
    requires Loadable(s) && Numeric(s) && Scaled(s) && !Crossed(s)
    requires (s.hasMin && limit == s.min && !MinRoundsIn(s)) || (s.hasMax && limit == s.max && !MaxRoundsIn(s))
    ensures !HonoursLimits(s)
  {
    var v := Real(limit);
    assert Quantity(v) == limit == Clamp(s, limit);
    RoundsInIff(s, limit);
    hide Representable, OnRawScale, Image, RoundsUp, RoundsDown, Quotient;
    NumericOutcome(s, v, limit, OnRawScale(s, limit));
    assert Encoded(s, v).Accepted? && !InLimits(s, Image(s, Clamp(s, Quantity(v))));
  }

  /** Rounding inwards, on the physical scale. */
  lemma RoundsInIff(s: Signal, limit: real)
    requires Loadable(s) && Numeric(s) && Scaled(s)
    ensures var q := Quotient(s, limit);
      && (Image(s, limit) >= limit <==> if s.scale > 0.0 then RoundsUp(q) else RoundsDown(q))
      && (Image(s, limit) <= limit <==> if s.scale > 0.0 then RoundsDown(q) else RoundsUp(q))
  {
    var q := Quotient(s, limit);
    assert OnRawScale(s, limit) == RoundHalfAway(q);
    var n := Trunc(RoundHalfAway(q));
    hide Trunc, OnRawScale, Stepped, PhysicalOf, RoundHalfAway, Quotient;
    PhysicalIsStepped(s, n);
    OnSide(s, n as real, q, limit);
  }

  /** A raw number and a quotient compare as their physical values do, or the other way round. */
  lemma OnSide(s: Signal, x: real, q: real, y: real)
    requires s.scale != 0.0 && q == Quotient(s, y)
    ensures Stepped(s, x) >= y <==> if s.scale > 0.0 then x >= q else x <= q
    ensures Stepped(s, x) <= y <==> if s.scale > 0.0 then x <= q else x >= q
  {
    Distance(s, x, q, y);
    SignOf(x - q, s.scale);
    SignOf(q - x, s.scale);
    Negated(x - q, s.scale);
    Opposite(x - q, s.scale);
    hide Times, Stepped, Quotient;
  }

  lemma Opposite(d: real, w: real)
    ensures Times(-d, w) == -Times(d, w)
  {
  }

  lemma LimitsKept(s: Signal)
    requires Loadable(s) && Numeric(s) && Scaled(s) && !Crossed(s)
    requires (s.hasMin ==> MinRoundsIn(s)) && (s.hasMax ==> MaxRoundsIn(s))
    ensures HonoursLimits(s)
  {
    forall v | Encoded(s, v).Accepted? ensures InLimits(s, Image(s, Clamp(s, Quantity(v)))) {
      var y := Clamp(s, Quantity(v));
      AcceptedNumeric(s, v, y, OnRawScale(s, y));
      hide Encoded, Representable, OnRawScale, Image;
      if s.hasMin { KeptAbove(s, y); }
      if s.hasMax { KeptBelow(s, y); }
    }
  }

  lemma KeptAbove(s: Signal, y: real)
    requires Loadable(s) && Numeric(s) && Scaled(s) && s.min <= y && MinRoundsIn(s) && Representable(s, OnRawScale(s, y))
    ensures s.min <= Image(s, y)
  {
    hide Representable, OnRawScale, Image, RoundsUp, RoundsDown, Quotient;
    if Representable(s, OnRawScale(s, s.min)) {
      RoundsInIff(s, s.min);
      ImageMonotone(s, s.min, y);
    } else {
      OutsideKeeps(s, s.min, y);
    }
  }

  lemma KeptBelow(s: Signal, y: real)
    requires Loadable(s) && Numeric(s) && Scaled(s) && y <= s.max && MaxRoundsIn(s) && Representable(s, OnRawScale(s, y))
    ensures Image(s, y) <= s.max
  {
    hide Representable, OnRawScale, Image, RoundsUp, RoundsDown, Quotient;
    if Representable(s, OnRawScale(s, s.max)) {
      RoundsInIff(s, s.max);
      ImageMonotone(s, y, s.max);
    } else {
      OutsideKeeps(s, s.max, y);
    }
  }

  /** A limit that does not encode is never left by a value that does. */
  lemma OutsideKeeps(s: Signal, limit: real, y: real)
    requires Loadable(s) && Numeric(s) && Scaled(s)
    requires Representable(s, OnRawScale(s, y)) && !Representable(s, OnRawScale(s, limit))
    ensures limit <= y ==> limit <= Image(s, y)
    ensures y <= limit ==> Image(s, y) <= limit
  {
    var q, x := Quotient(s, limit), OnRawScale(s, y);
    assert OnRawScale(s, limit) == RoundHalfAway(q);
    if limit <= y { RawScaleMonotone(s, limit, y); }
    if y <= limit { RawScaleMonotone(s, y, limit); }
    Beyond(s, q, x);
    hide Trunc, OnRawScale, Stepped, PhysicalOf, RoundHalfAway, Quotient, Representable;
    PhysicalIsStepped(s, Trunc(x));
    OnSide(s, Trunc(x) as real, q, limit);
  }

  lemma Beyond(s: Signal, q: real, x: real)
    requires Loadable(s) && Representable(s, x) && !Representable(s, RoundHalfAway(q))
    ensures RoundHalfAway(q) <= x ==> q <= Trunc(x) as real
    ensures RoundHalfAway(q) >= x ==> q >= Trunc(x) as real
  {
    var lo, hi := RawLow(s), RawHigh(s);
    RepresentableTrunc(s, x);
    CompareReal(lo, Trunc(x));
    CompareReal(Trunc(x), hi);
    RoundOfWhole(lo);
    RoundOfWhole(hi);
    if q >= lo as real { RoundMono(lo as real, q); }
    if q <= hi as real { RoundMono(q, hi as real); }
    CompareReal(hi, hi + 1);
    hide RoundHalfAway, Trunc, RawLow, RawHigh;
  }

  /** A signal in steps of two whose minimum of 2.5 rounds to 2. */
  const ROUNDED_MIN := Signal("m", 0, 8, TypeUint, 2.0, 0.0, None, true, 2.5, false, 0.0, true, 0, 7, Contiguous)

  /** A one-sided scaled limit that is left: 2.5 is accepted and decodes to 2. */
  lemma RoundedMinimumIsLeft()
    ensures Loadable(ROUNDED_MIN) && !HonoursLimits(ROUNDED_MIN)
    ensures Encoded(ROUNDED_MIN, Real(2.5)) == Accepted(1, false) && DecodedValue(ROUNDED_MIN, 1) == Real(2.0)
  {
    hide Trunc, OnRawScale, Representable, RoundHalfAway, TwosComplement, HonoursLimits, Pow2;
    var s := ROUNDED_MIN;
    RoundsToOne();
    SmallFits();
    TruncOfInt(1);
    assert Quantity(Real(2.5)) == 2.5 == Clamp(s, 2.5);
    NumericOutcome(s, Real(2.5), 2.5, 1.0);
    assert Encoded(s, Real(2.5)) == Accepted(1, false);
    assert Image(s, 2.5) == 2.0;
    Left(s, Real(2.5));
  }

  lemma RoundsToOne()
    ensures OnRawScale(ROUNDED_MIN, 2.5) == 1.0
  {
    FloorBounds(1.75);
    assert (2.5 - 0.0) / 2.0 == 1.25;
  }

  lemma SmallFits()
    ensures Representable(ROUNDED_MIN, 1.0) && TwosComplement(1, 8) == 1
  {
    Pow2Of8();
    TwosComplementSmall(1, 8);
    hide TwosComplement, Pow2;
  }

  lemma Left(s: Signal, v: Value)
    requires Loadable(s) && Numeric(s) && Encoded(s, v).Accepted? && !InLimits(s, Image(s, Clamp(s, Quantity(v))))
    ensures !HonoursLimits(s)
  {
  }

  /** A limit that an unscaled value can be clamped to and that truncation moves outwards. */
  predicate MinTruncatesOut(s: Signal)
    requires Loadable(s)
  {
    s.hasMin && Representable(s, s.min) && s.min > 0.0 && Trunc(s.min) as real != s.min
  }

  predicate MaxTruncatesOut(s: Signal)
    requires Loadable(s)
  {
    s.hasMax && Representable(s, s.max) && s.max < 0.0 && Trunc(s.max) as real != s.max
  }

  /**
   An unscaled signal honours its limits, whichever it declares, exactly when
   values outside are refused or no limit has a fraction that truncation towards
   zero would carry outwards.
   */
  lemma UnscaledHonoursLimitsIff(s: Signal)
    requires Loadable(s) && Numeric(s) && !Scaled(s)
    ensures HonoursLimits(s) <==>
            s.strict || if Crossed(s) then !Representable(s, s.max) else !MinTruncatesOut(s) && !MaxTruncatesOut(s)
  {
    hide HonoursLimits, MinTruncatesOut, MaxTruncatesOut;
    if Crossed(s) {
      CrossedLimits(s);
    } else if s.strict {
      StrictKeeps(s);
    } else {
      if MinTruncatesOut(s) { ZeroEscapes(s, s.min); }
      if MaxTruncatesOut(s) { ZeroEscapes(s, s.max); }
      if !MinTruncatesOut(s) && !MaxTruncatesOut(s) { UnscaledKept(s); }
    }
  }

  /** An unscaled signal with a minimum of 2.5, to which a smaller value is clamped. */
  const FRACTIONAL_MIN := ROUNDED_MIN.(scale := 1.0, strict := false)

  /** A one-sided unscaled limit that is left: 2.5 is cut off to 2. */
  lemma FractionalMinimumIsLeft()
    ensures Loadable(FRACTIONAL_MIN) && !HonoursLimits(FRACTIONAL_MIN)
  {
    hide HonoursLimits;
    FloorBounds(2.5);
    FractionFits();
    UnscaledHonoursLimitsIff(FRACTIONAL_MIN);
    hide Representable;
  }

  lemma FractionFits()
    ensures Representable(FRACTIONAL_MIN, 2.5)
  {
    Pow2Of8();
    hide Pow2;
  }

  lemma StrictKeeps(s: Signal)
    requires Loadable(s) && Numeric(s) && !Scaled(s) && s.strict
    ensures HonoursLimits(s)
  {
    forall v | Encoded(s, v).Accepted? ensures InLimits(s, Image(s, Clamp(s, Quantity(v)))) {
      WholeValue(s, v);
      assert Clamp(s, Quantity(v)) == Quantity(v);
    }
  }

  lemma WholeValue(s: Signal, v: Value)
    requires Numeric(s) && !Scaled(s) && Takes(s, v)
    ensures Trunc(Quantity(v)) as real == Quantity(v)
  {
    if v.Int? { TruncOfInt(v.i); } else { TruncOfInt(v.u); }
  }

  /** Zero is clamped to the limit and decodes outside of it. */
  lemma ZeroEscapes(s: Signal, limit: real)
    requires Loadable(s) && Numeric(s) && !Scaled(s) && !s.strict && !Crossed(s)
    requires (limit == s.min && MinTruncatesOut(s)) || (limit == s.max && MaxTruncatesOut(s))
    ensures !HonoursLimits(s)
  {
    var v := if s.kind.TypeInt? then Int(0) else Uint(0);
    assert Quantity(v) == 0.0 && Clamp(s, 0.0) == limit;
    TruncTowardsZero(limit);
    hide Trunc, Representable;
    NumericOutcome(s, v, limit, limit);
    assert Encoded(s, v).Accepted? && !InLimits(s, Image(s, Clamp(s, Quantity(v))));
  }

  lemma UnscaledKept(s: Signal)
    requires Loadable(s) && Numeric(s) && !Scaled(s) && !Crossed(s) && !MinTruncatesOut(s) && !MaxTruncatesOut(s)
    ensures HonoursLimits(s)
  {
    forall v | Encoded(s, v).Accepted? ensures InLimits(s, Image(s, Clamp(s, Quantity(v)))) {
      WholeValue(s, v);
      var y := Clamp(s, Quantity(v));
      AcceptedNumeric(s, v, y, y);
      UnscaledImageInside(s, y);
    }
  }

  /** What a clamped value, a limit or a whole number, truncates to. */
  lemma UnscaledImageInside(s: Signal, y: real)
    requires Loadable(s) && Numeric(s) && !Scaled(s) && !MinTruncatesOut(s) && !MaxTruncatesOut(s)
    requires InLimits(s, y) && Representable(s, y)
    requires Trunc(y) as real == y || (s.hasMin && y == s.min) || (s.hasMax && y == s.max)
    ensures InLimits(s, Image(s, y))
  {
    if Trunc(y) as real != y {
      FractionInside(s, y);
    }
  }

  lemma FractionInside(s: Signal, y: real)
    requires Loadable(s) && Numeric(s) && !Scaled(s) && !MinTruncatesOut(s) && !MaxTruncatesOut(s)
    requires InLimits(s, y) && Representable(s, y) && ((s.hasMin && y == s.min) || (s.hasMax && y == s.max))
    ensures InLimits(s, Image(s, y))
  {
    TruncTowardsZero(y);
    if s.hasMin { TruncMono(s.min, y); TruncTowardsZero(s.min); CompareReal(Trunc(s.min), Trunc(y)); }
    if s.hasMax { TruncMono(y, s.max); TruncTowardsZero(s.max); CompareReal(Trunc(y), Trunc(s.max)); }
    hide Trunc;
  }

  lemma TruncTowardsZero(x: real)
    ensures x >= 0.0 ==> 0.0 <= Trunc(x) as real <= x
    ensures x <= 0.0 ==> x <= Trunc(x) as real <= 0.0
  {
  }

  lemma TruncMono(a: real, b: real)
    requires a <= b
    ensures Trunc(a) <= Trunc(b)
  {
    if Trunc(a) > Trunc(b) { CompareReal(Trunc(b) + 1, Trunc(a)); }
  }

  lemma RoundMono(a: real, b: real)
    requires a <= b
    ensures RoundHalfAway(a) <= RoundHalfAway(b)
  {
    var pa, pb := if a >= 0.0 then a + 0.5 else a - 0.5, if b >= 0.0 then b + 0.5 else b - 0.5;
    TruncMono(pa, pb);
    CompareReal(Trunc(pa), Trunc(pb));
    RoundInRange(a, pa);
    RoundInRange(b, pb);
    hide Trunc;
  }

  lemma RoundInRange(q: real, p: real)
    requires p == if q >= 0.0 then q + 0.5 else q - 0.5
    ensures -INT64_LIMIT as real <= q < INT64_LIMIT as real ==>
              -INT64_LIMIT as real <= Trunc(p) as real <= INT64_LIMIT as real
  {
    if -INT64_LIMIT as real <= q < INT64_LIMIT as real {
      FloorBounds(if p >= 0.0 then p else -p);
      if Trunc(p) > INT64_LIMIT { CompareReal(INT64_LIMIT + 1, Trunc(p)); }
      if Trunc(p) < -INT64_LIMIT { CompareReal(Trunc(p), -INT64_LIMIT - 1); }
    }
  }

  /** The image is monotone, whatever the sign of the scale. */
  lemma ImageMonotone(s: Signal, a: real, b: real)
    requires Loadable(s) && Numeric(s) && Scaled(s) && a <= b
    ensures Image(s, a) <= Image(s, b)
  {
    RawScaleMonotone(s, a, b);
    var m, n := OnRawScale(s, a), OnRawScale(s, b);
    hide OnRawScale;
    if s.scale > 0.0 { TruncMono(m, n); } else { TruncMono(n, m); }
    PhysicalMonotone(s, Trunc(m), Trunc(n));
    hide PhysicalOf, Trunc;
  }

  lemma RawScaleMonotone(s: Signal, a: real, b: real)
    requires Loadable(s) && Numeric(s) && Scaled(s) && a <= b
    ensures s.scale > 0.0 ==> OnRawScale(s, a) <= OnRawScale(s, b)
    ensures s.scale < 0.0 ==> OnRawScale(s, a) >= OnRawScale(s, b)
  {
    var p, q := (a - s.offset) / s.scale, (b - s.offset) / s.scale;
    Dividing(a - s.offset, b - s.offset, s.scale);
    hide RoundHalfAway;
    if s.scale > 0.0 { RoundMono(p, q); } else { RoundMono(q, p); }
  }

  lemma PhysicalMonotone(s: Signal, m: int, n: int)
    requires Scaled(s) && ((s.scale > 0.0 && m <= n) || (s.scale < 0.0 && m >= n))
    ensures PhysicalOf(s, m) <= PhysicalOf(s, n)
  {
    CompareReal(m, n);
    CompareReal(n, m);
    Multiplying(m as real, n as real, s.scale);
  }

  lemma Dividing(a: real, b: real, scale: real)
    requires scale != 0.0 && a <= b
    ensures scale > 0.0 ==> a / scale <= b / scale
    ensures scale < 0.0 ==> a / scale >= b / scale
  {
    var p, q := a / scale, b / scale;
    assert p * scale == a && q * scale == b;
    if scale > 0.0 && p > q { Multiplying(q, p, scale); }
    if scale < 0.0 && p < q { Multiplying(q, p, scale); }
    assert (p - q) * scale <= 0.0;
  }

  lemma Multiplying(m: real, n: real, scale: real)
    requires (scale > 0.0 && m <= n) || (scale < 0.0 && m >= n)
    ensures m * scale <= n * scale
  {
    assert (n - m) * scale >= 0.0;
  }
}
