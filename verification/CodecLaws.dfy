/**
 What the codec does with one value, by the fields of the signal and the value
 (core/codec/src/encoder.c and decoder.c): which kinds a signal takes, what limits
 do, what is read of a frame, and which status each call gives.
 */
module CodecLaws {
  import opened Wrappers
  import opened Bits
  import opened Words
  import opened CodecBits
  import opened CodecTypes
  import opened Encoder
  import opened Decoder

  // ---------------------------------------------------------------------------
  // Encoding
  // ---------------------------------------------------------------------------

  /** A value is refused as an argument exactly when its kind does not go with the signal's type. */
  lemma KindIsRefusedIff(s: Signal, v: Value)
    requires Loadable(s)
    ensures Encoded(s, v) == Rejected(ErrArgument) <==>
            !match v
             case Unset => false
             case Bool(_) => s.kind.TypeBoolean?
             case Int(_) => s.kind.TypeBoolean? || s.kind.TypeEnum? || s.kind.TypeInt?
             case Uint(_) => s.kind.TypeBoolean? || s.kind.TypeEnum? || s.kind.TypeUint?
             case Real(_) => (s.kind.TypeUint? || s.kind.TypeInt?) && !(s.scale == 1.0 && s.offset == 0.0)
  {
    hide Representable, OnRawScale, Trunc, Pow2, TwosComplement;
  }

  /** Two values that are not refused as arguments and denote the same number are encoded alike. */
  lemma NumberDecides(s: Signal, v: Value, w: Value)
    requires Loadable(s) && Encoded(s, v) != Rejected(ErrArgument) && Encoded(s, w) != Rejected(ErrArgument)
    requires Quantity(v) == Quantity(w)
    ensures Encoded(s, v) == Encoded(s, w)
  {
    hide Representable, OnRawScale, Trunc, Pow2, TwosComplement;
  }

  /** The number of a value. */
  lemma QuantityIs(b: bool, i: int64, u: uint64, r: real)
    ensures Quantity(Bool(b)) == (if b then 1.0 else 0.0) && Quantity(Int(i)) == i as real
    ensures Quantity(Uint(u)) == u as real && Quantity(Real(r)) == r
  {
  }

  /** A boolean takes 0 and 1, an enum every number of its width, whatever the kind of value; limits do not apply to them. */
  lemma WholeNumberIsEncoded(s: Signal, v: Value, n: int)
    requires Loadable(s) && (s.kind.TypeBoolean? || s.kind.TypeEnum?)
    requires Encoded(s, v) != Rejected(ErrArgument) && Quantity(v) == n as real
    ensures Encoded(s, v) == if 0 <= n < Pow2(s.bitLength) then Accepted(n, false) else Rejected(ErrRange)
  {
    TruncOfInt(n);
    hide Pow2, Trunc;
  }

  function Unlimited(s: Signal): Signal { s.(hasMin := false, hasMax := false) }

  /** Limits include their end points. */
  predicate Inside(s: Signal, x: real) {
    (s.hasMin ==> s.min <= x) && (s.hasMax ==> x <= s.max)
  }

  /** Where a number outside the limits is moved: to the limit it passes, and to the maximum when the limits are crossed. */
  function NearestLimit(s: Signal, x: real): real {
    if s.hasMin && x < s.min && !(s.hasMax && s.min > s.max) then s.min else s.max
  }

  /**
   A number inside the limits is encoded as without them; one outside is refused by a
   strict signal, and otherwise encoded as the limit, with the warning unless that is
   the number itself, which crossed limits allow.
   */
  lemma LimitsAct(s: Signal, v: Value)
    requires Loadable(s) && (s.kind.TypeUint? || s.kind.TypeInt?) && Encoded(s, v) != Rejected(ErrArgument)
    ensures Loadable(Unlimited(s))
    ensures Inside(s, Quantity(v)) ==> Encoded(s, v) == Encoded(Unlimited(s), v)
    ensures !Inside(s, Quantity(v)) && s.strict ==> Encoded(s, v) == Rejected(ErrRange)
    ensures !Inside(s, Quantity(v)) && !s.strict && Scaled(s) ==>
              Encoded(s, v) == match Encoded(Unlimited(s), Real(NearestLimit(s, Quantity(v))))
                               case Rejected(status) => Rejected(status)
                               case Accepted(raw, _) => Accepted(raw, NearestLimit(s, Quantity(v)) != Quantity(v))
  {
    var x := Quantity(v);
    TakenNumber(s, v);
    MovedTo(s, x);
    hide Encoded;
    if Inside(s, x) {
      LimitedOutcome(s, v);
      LimitedOutcome(Unlimited(s), v);
      SameScale(s, x);
    } else if s.strict {
      StrictRefuses(s, v);
    } else if Scaled(s) {
      var w := Real(NearestLimit(s, x));
      LimitedOutcome(s, v);
      LimitedOutcome(Unlimited(s), w);
      SameScale(s, w.r);
    }
    hide Representable, OnRawScale, Trunc, Pow2, TwosComplement, Clamp;
  }

  lemma TakenNumber(s: Signal, v: Value)
    requires Loadable(s) && Encoded(s, v) != Rejected(ErrArgument)
    ensures Takes(s, v) && Takes(Unlimited(s), v)
  {
    hide Representable, OnRawScale, Trunc, Pow2, TwosComplement;
  }

  lemma MovedTo(s: Signal, x: real)
    ensures Inside(s, x) <==> !OutOfLimits(s, x)
    ensures Clamp(s, x) == (if Inside(s, x) then x else NearestLimit(s, x)) && Clamp(Unlimited(s), x) == x
  {
  }

  lemma StrictRefuses(s: Signal, v: Value)
    requires Loadable(s) && (s.kind.TypeUint? || s.kind.TypeInt?) && Takes(s, v) && s.strict && OutOfLimits(s, Quantity(v))
    ensures Encoded(s, v) == Rejected(ErrRange)
  {
  }

  lemma LimitedOutcome(s: Signal, v: Value)
    requires Loadable(s) && (s.kind.TypeUint? || s.kind.TypeInt?) && Takes(s, v) && (s.strict ==> !OutOfLimits(s, Quantity(v)))
    ensures var y := Clamp(s, Quantity(v));
      Encoded(s, v) == if Representable(s, OnRawScale(s, y)) then Accepted(TwosComplement(Trunc(OnRawScale(s, y)), s.bitLength), y != Quantity(v))
                       else Rejected(ErrRange)
  {
    NumericOutcome(s, v, Clamp(s, Quantity(v)), OnRawScale(s, Clamp(s, Quantity(v))));
  }

  lemma SameScale(s: Signal, x: real)
    requires Loadable(s) && (s.kind.TypeUint? || s.kind.TypeInt?)
    ensures OnRawScale(s, x) == OnRawScale(Unlimited(s), x)
    ensures Representable(s, x) <==> Representable(Unlimited(s), x)
  {
    hide RoundHalfAway, Pow2;
  }

  /** An unscaled signal moves a number outside its limits to a whole limit as if that had been given. */
  lemma WholeLimitActs(s: Signal, v: Value, w: Value)
    requires Loadable(s) && (s.kind.TypeUint? || s.kind.TypeInt?) && !Scaled(s) && !s.strict
    requires Encoded(s, v) != Rejected(ErrArgument) && !Inside(s, Quantity(v))
    requires Loadable(Unlimited(s)) && Encoded(Unlimited(s), w) != Rejected(ErrArgument) && Quantity(w) == NearestLimit(s, Quantity(v))
    ensures Encoded(s, v) == match Encoded(Unlimited(s), w)
                             case Rejected(status) => Rejected(status)
                             case Accepted(raw, _) => Accepted(raw, Quantity(w) != Quantity(v))
  {
    TakenNumber(s, v);
    TakenNumber(Unlimited(s), w);
    MovedTo(s, Quantity(v));
    MovedTo(s, Quantity(w));
    LimitedOutcome(s, v);
    LimitedOutcome(Unlimited(s), w);
    SameScale(s, Quantity(w));
    hide Encoded, Representable, Trunc, Pow2, TwosComplement, OnRawScale, Clamp;
  }

  /** The lengths that a classic or an FD frame can have. */
  predicate IsFrameLength(n: nat) {
    (1 <= n && n <= 8) || n == 12 || n == 16 || n == 20 || n == 24 || n == 32 || n == 48 || n == 64
  }

  /** Some bit of the signal lies outside a frame of n bytes. */
  ghost predicate BitOutside(s: Signal, n: nat)
    requires Loadable(s)
  {
    exists i: nat | i < s.bitLength :: Position(PlacementOf(s), i) >= 8 * n
  }

  lemma FitsIff(s: Signal, n: nat)
    requires Loadable(s)
    ensures Fits(PlacementOf(s), n) <==> !BitOutside(s, n)
  {
    FitsIffBitsInside(PlacementOf(s), n);
    hide Fits, Position;
  }

  /** The status of an encode call, from its arguments. */
  lemma EncodeStatusIff(s: Signal, v: Value, n: nat)
    requires Loadable(s)
    ensures var status := EncodeStatus(s, v, n);
      && (status == ErrFrameTooShort <==> IsFrameLength(n) && BitOutside(s, n))
      && (status == ErrArgument <==> !IsFrameLength(n) || (!BitOutside(s, n) && Encoded(s, v) == Rejected(ErrArgument)))
      && (status == ErrRange <==> IsFrameLength(n) && !BitOutside(s, n) && Encoded(s, v) == Rejected(ErrRange))
      && (status == WarnValueClamped <==> IsFrameLength(n) && !BitOutside(s, n) && Encoded(s, v).Accepted? && Encoded(s, v).clamped)
      && (status == Ok <==> IsFrameLength(n) && !BitOutside(s, n) && Encoded(s, v).Accepted? && !Encoded(s, v).clamped)
  {
    FitsIff(s, n);
    RejectionsAre(s, v);
    hide Encoded, Fits, BitOutside;
  }

  lemma RejectionsAre(s: Signal, v: Value)
    requires Loadable(s)
    ensures Encoded(s, v).Rejected? ==> Encoded(s, v).status == ErrArgument || Encoded(s, v).status == ErrRange
  {
    hide Representable, OnRawScale, Trunc, Pow2, TwosComplement;
  }

  // ---------------------------------------------------------------------------
  // Decoding
  // ---------------------------------------------------------------------------

  /** The number that the raw bits of a frame stand for: two's complement for an int, binary otherwise. */
  function NumberIn(s: Signal, raw: nat): int
    requires 1 <= s.bitLength
  {
    if s.kind.TypeInt? && raw >= Pow2(s.bitLength - 1) then raw - Pow2(s.bitLength) else raw
  }

  lemma NumberOf(s: Signal, raw: uint64)
    requires Loadable(s) && raw < Pow2(s.bitLength)
    ensures s.kind.TypeInt? ==> SignExtend(raw, s.bitLength) == NumberIn(s, raw)
    ensures s.kind.TypeUint? ==> NumberIn(s, raw) == raw
    ensures s.kind.TypeBoolean? ==> raw < 2
  {
    SignExtendValue(raw, s.bitLength);
    if s.kind.TypeBoolean? { assert Pow2(1) == 2; }
  }

  /** What a raw word is read as: a boolean bit, a number, or the number scaled; an enum is a signed 64-bit word. */
  lemma ReadingIs(s: Signal, raw: uint64)
    requires Loadable(s) && raw < Pow2(s.bitLength)
    ensures var v, n := DecodedValue(s, raw), NumberIn(s, raw);
      && (s.kind.TypeBoolean? ==> v == Bool(raw == 1))
      && (s.kind.TypeEnum? ==> v.Int? && v.i == if raw >= INT64_LIMIT then raw - UINT64_MODULUS else raw)
      && (s.kind.TypeUint? && s.scale == 1.0 && s.offset == 0.0 ==> v == Uint(raw))
      && (s.kind.TypeInt? && s.scale == 1.0 && s.offset == 0.0 ==> v.Int? && v.i == n)
      && ((s.kind.TypeUint? || s.kind.TypeInt?) && !(s.scale == 1.0 && s.offset == 0.0) ==> v == Real(Physical(s, n)))
  {
    NumberOf(s, raw);
    if s.kind.TypeUint? || s.kind.TypeInt? { NumberReading(s, raw); }
    hide SignExtend, Pow2, NumberIn, Physical;
  }

  /** A number in physical units. */
  function Physical(s: Signal, n: int): real { n as real * s.scale + s.offset }

  lemma NumberReading(s: Signal, raw: uint64)
    requires Loadable(s) && raw < Pow2(s.bitLength) && (s.kind.TypeUint? || s.kind.TypeInt?)
    ensures var v, n := DecodedValue(s, raw), NumberIn(s, raw);
      && (s.kind.TypeUint? && s.scale == 1.0 && s.offset == 0.0 ==> v == Uint(raw))
      && (s.kind.TypeInt? && s.scale == 1.0 && s.offset == 0.0 ==> v.Int? && v.i == n)
      && (!(s.scale == 1.0 && s.offset == 0.0) ==> v == Real(Physical(s, n)))
  {
    NumberOf(s, raw);
    if s.kind.TypeUint? { UintReading(s, raw); } else { IntReading(s, raw); }
    hide SignExtend, Pow2, NumberIn, Physical, DecodedValue;
  }

  lemma UintReading(s: Signal, raw: uint64)
    requires 1 <= s.bitLength <= 64 && s.kind.TypeUint?
    ensures DecodedValue(s, raw) == if s.scale == 1.0 && s.offset == 0.0 then Uint(raw) else Real(Physical(s, raw))
  {
  }

  lemma IntReading(s: Signal, raw: uint64)
    requires 1 <= s.bitLength <= 64 && s.kind.TypeInt?
    ensures var n := SignExtend(raw, s.bitLength);
      DecodedValue(s, raw) == if s.scale == 1.0 && s.offset == 0.0 then Int(n) else Real(Physical(s, n))
  {
    hide SignExtend;
  }

  /** The raw word of a signal in a frame is made of the frame's bits. */
  lemma WordIs(s: Signal, f: seq<byte>)
    requires Loadable(s) && Fits(PlacementOf(s), |f|)
    ensures var d := SignalImage(s, f);
      && d.signal == s && d.raw < Pow2(s.bitLength) && d.value == DecodedValue(s, d.raw)
    ensures forall i: nat | i < s.bitLength :: Position(PlacementOf(s), i) < 8 * |f|
                              && Bit(SignalImage(s, f).raw, i) == FrameBit(f, Position(PlacementOf(s), i))
  {
    WordBound(s, f);
    FitsIffBitsInside(PlacementOf(s), |f|);
    var raw := RawOf(f, PlacementOf(s));
    forall i: nat | i < s.bitLength ensures Bit(raw, i) == FrameBit(f, Position(PlacementOf(s), i)) {
      assert Bit(raw, i) == BitAt(f, PlacementOf(s), i);
    }
    hide Pow2, Fits, Position, Bit, DecodedValue;
  }

  /** And its caption is the first label for the raw word; the enum warning counts exactly the enums without one. */
  lemma CaptionIs(s: Signal, f: seq<byte>)
    requires Loadable(s) && Fits(PlacementOf(s), |f|)
    ensures var d := SignalImage(s, f);
      && (d.caption.None? <==> s.values.None? || forall m | m in s.values.value :: m.raw != d.raw)
      && (d.caption.Some? ==> exists i | 0 <= i < |s.values.value| ::
            s.values.value[i] == Mapping(d.raw, d.caption.value) && forall j | 0 <= j < i :: s.values.value[j].raw != d.raw)
      && (IsUnlabelled(d) <==> s.kind.TypeEnum? && (s.values.None? || forall m | m in s.values.value :: m.raw != d.raw))
  {
    var d := SignalImage(s, f);
    if s.values.Some? { FirstLabelIsFirst(s.values.value, d.raw); }
    hide FirstLabel, Fits, PlacementOf, DecodedValue;
  }

  /** The message of an id is the first of that id. */
  lemma {:induction false} MessageIsFirst(messages: seq<Message>, id: nat)
    ensures MessageById(messages, id).Some? ==> exists i | 0 <= i < |messages| ::
              messages[i] == MessageById(messages, id).value && forall j | 0 <= j < i :: messages[j].id != id
  {
    if messages != [] && messages[0].id != id {
      MessageIsFirst(messages[1..], id);
      if MessageById(messages, id).Some? {
        var i :| 0 <= i < |messages[1..]| && messages[1..][i] == MessageById(messages, id).value
                 && forall j | 0 <= j < i :: messages[1..][j].id != id;
        forall j | 0 <= j < i + 1 ensures messages[j].id != id { if j > 0 { assert messages[j] == messages[1..][j - 1]; } }
        assert messages[i + 1] == messages[1..][i];
      }
    }
  }

  /** The status of a frame decode, from its arguments. */
  lemma FrameStatusIff(messages: Option<seq<Message>>, id: nat, length: Option<nat>, capacity: Option<nat>, counted: bool)
    requires messages.Some? ==> forall m | m in messages.value :: AllLoadable(m.signals)
    ensures var status := FrameStatus(messages, id, length, capacity, counted);
      && (status == ErrNull <==> messages.None? || length.None? || !counted)
      && (status == ErrNotFound ==> forall m | m in messages.value :: m.id != id)
      && (status == Ok || status == WarnFrameTooShort ==>
            && messages.Some? && length.Some? && counted && capacity.Some? && IsFrameLength(length.value)
            && MessageById(messages.value, id).Some?
            && var m := MessageById(messages.value, id).value;
            |m.signals| <= capacity.value
            && (status == Ok <==> forall s | s in m.signals :: !BitOutside(s, length.value)))
      && (messages.Some? && length.Some? && counted && status != ErrArgument ==>
            capacity.Some? && capacity.value > 0 && IsFrameLength(length.value))
      && (status == ErrArgument && capacity.Some? && capacity.value > 0 && IsFrameLength(length.value) ==>
            MessageById(messages.value, id).Some? && |MessageById(messages.value, id).value.signals| > capacity.value)
      && (status == Ok || status == WarnFrameTooShort || status == ErrNull || status == ErrArgument || status == ErrNotFound)
  {
    if messages.Some? && length.Some? && MessageById(messages.value, id).Some? {
      AllFitIff(MessageById(messages.value, id).value.signals, length.value);
    }
    hide Fits, BitOutside, AllFit;
  }

  lemma AllFitIff(signals: seq<Signal>, n: nat)
    requires AllLoadable(signals)
    ensures AllFit(signals, n) <==> forall s | s in signals :: !BitOutside(s, n)
  {
    forall i | 0 <= i < |signals| ensures Fits(PlacementOf(signals[i]), n) <==> !BitOutside(signals[i], n) { FitsIff(signals[i], n); }
    hide Fits, BitOutside, PlacementOf;
  }

  /** Each warning moves its own counter by one, modulo 2^32, and no other. */
  lemma CountersMove(c: Counters)
    ensures TooShortCounted(c) == Counters((c.frameTooShort + 1) % 0x1_0000_0000, c.valueClamped, c.enumUnknown)
    ensures Clamped(c) == Counters(c.frameTooShort, (c.valueClamped + 1) % 0x1_0000_0000, c.enumUnknown)
    ensures Unknown(c) == Counters(c.frameTooShort, c.valueClamped, (c.enumUnknown + 1) % 0x1_0000_0000)
  {
  }
}
