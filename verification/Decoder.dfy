/** The signal and frame decoder (core/codec/src/decoder.c). */
module Decoder {
  import opened Bits
  import opened CodecBits
  import opened CodecTypes
  import opened Wrappers
  import opened Words

  // ---------------------------------------------------------------------------
  // What decoding means
  // ---------------------------------------------------------------------------

  function DecodedValue(s: Signal, raw: uint64): Value
    requires 1 <= s.bitLength <= 64
  {
    match s.kind
    case TypeUint => if Scaled(s) then Real(raw as real * s.scale + s.offset) else Uint(raw)
    case TypeInt =>
      var n := SignExtend(raw, s.bitLength);
      if Scaled(s) then Real(n as real * s.scale + s.offset) else Int(n)
    case TypeBoolean => Bool(raw % 2 == 1)
    case TypeEnum => Int(AsInt64(raw))
  }

  /** The label of the first mapping entry with that raw value. */
  function FirstLabel(ms: seq<Mapping>, raw: uint64): (caption: Option<string>) {
    if ms == [] then None
    else if ms[0].raw == raw then Some(ms[0].name)
    else FirstLabel(ms[1..], raw)
  }

  lemma {:induction false} FirstLabelIsFirst(ms: seq<Mapping>, raw: uint64)
    ensures FirstLabel(ms, raw).None? <==> forall m | m in ms :: m.raw != raw
    ensures FirstLabel(ms, raw).Some? ==> exists i | 0 <= i < |ms| ::
              ms[i] == Mapping(raw, FirstLabel(ms, raw).value) && forall j | 0 <= j < i :: ms[j].raw != raw
  {
    if ms != [] && ms[0].raw != raw {
      FirstLabelIsFirst(ms[1..], raw);
      if FirstLabel(ms, raw).Some? {
        var i :| 0 <= i < |ms[1..]| && ms[1..][i] == Mapping(raw, FirstLabel(ms, raw).value)
                 && forall j | 0 <= j < i :: ms[1..][j].raw != raw;
        forall j | 0 <= j < i + 1 ensures ms[j].raw != raw { if j > 0 { assert ms[j] == ms[1..][j - 1]; } }
        assert ms[i + 1] == ms[1..][i];
      }
    }
  }

  function LabelOf(s: Signal, raw: uint64): Option<string> {
    if s.values.None? then None else FirstLabel(s.values.value, raw)
  }

  function DecodedOf(s: Signal, raw: uint64): Decoded
    requires 1 <= s.bitLength <= 64
  {
    Decoded(s, raw, DecodedValue(s, raw), LabelOf(s, raw))
  }

  /** The decoded image of a signal in a frame. */
  function SignalImage(s: Signal, f: seq<byte>): Decoded
    requires Loadable(s) && Fits(PlacementOf(s), |f|)
  {
    WordBound(s, f);
    DecodedOf(s, RawOf(f, PlacementOf(s)))
  }

  lemma WordBound(s: Signal, f: seq<byte>)
    requires Loadable(s) && Fits(PlacementOf(s), |f|)
    ensures RawOf(f, PlacementOf(s)) < Pow2(s.bitLength)
    ensures RawOf(f, PlacementOf(s)) < UINT64_MODULUS
  {
    Pow2Facts();
    Pow2Mono(s.bitLength, 64);
  }

  ghost predicate AllLoadable(signals: seq<Signal>) {
    forall i | 0 <= i < |signals| :: Loadable(signals[i])
  }

  ghost predicate AllFit(signals: seq<Signal>, length: nat)
    requires AllLoadable(signals)
  {
    forall i | 0 <= i < |signals| :: Fits(PlacementOf(signals[i]), length)
  }

  /** The decoded image of a message: one entry per signal, in map order. */
  function MessageImage(signals: seq<Signal>, f: seq<byte>): seq<Decoded>
    requires AllLoadable(signals) && AllFit(signals, |f|)
  {
    seq(|signals|, i requires 0 <= i < |signals| => SignalImage(signals[i], f))
  }

  /** How many of the first n entries are enums without a label. */
  function Unlabelled(ds: seq<Decoded>, n: nat): nat
    requires n <= |ds|
  {
    if n == 0 then 0
    else Unlabelled(ds, n - 1) + if IsUnlabelled(ds[n - 1]) then 1 else 0
  }

  function Unknown(c: Counters): Counters { c.(enumUnknown := U32(c.enumUnknown + 1)) }

  function TooShortCounted(c: Counters): Counters { c.(frameTooShort := U32(c.frameTooShort + 1)) }

  /** The counters after decoding the first n entries. */
  function Counted(c: Counters, ds: seq<Decoded>, n: nat): Counters
    requires n <= |ds|
  {
    if n == 0 then c
    else if IsUnlabelled(ds[n - 1]) then Unknown(Counted(c, ds, n - 1)) else Counted(c, ds, n - 1)
  }

  predicate IsUnlabelled(d: Decoded) { d.signal.kind.TypeEnum? && d.caption.None? }

  /** The decode moves enum_unknown by the number of unlabelled enums, modulo 2^32, and nothing else. */
  lemma {:induction false} CountedIsSum(c: Counters, ds: seq<Decoded>, n: nat)
    requires n <= |ds| && c.enumUnknown < UINT32_MODULUS
    ensures Counted(c, ds, n) == c.(enumUnknown := U32(c.enumUnknown + Unlabelled(ds, n)))
  {
    if n != 0 {
      CountedIsSum(c, ds, n - 1);
      U32Add(c.enumUnknown + Unlabelled(ds, n - 1), 1);
      hide U32;
    }
  }

  // ---------------------------------------------------------------------------
  // The C functions
  // ---------------------------------------------------------------------------

  method DecodeRaw(s: Signal, raw: uint64) returns (out: Decoded)
    requires 1 <= s.bitLength <= 64
    ensures out == DecodedOf(s, raw)
  {
    var value: Value;
    match s.kind {
      case TypeUint =>
        if s.scale == 1.0 && s.offset == 0.0 {
          value := Uint(raw);
        } else {
          value := Real(raw as real * s.scale + s.offset);
        }
      case TypeInt =>
        var signedRaw := SignExtend(raw, s.bitLength);
        if s.scale == 1.0 && s.offset == 0.0 {
          value := Int(signedRaw);
        } else {
          value := Real(signedRaw as real * s.scale + s.offset);
        }
      case TypeBoolean => value := Bool(raw % 2 != 0);
      case TypeEnum => value := Int(AsInt64(raw));
    }
    var caption := FindLabel(s, raw);
    out := Decoded(s, raw, value, caption);
  }

  method FindLabel(s: Signal, raw: uint64) returns (caption: Option<string>)
    ensures caption == LabelOf(s, raw)
  {
    if s.values.None? { return None; }
    var ms := s.values.value;
    for i := 0 to |ms|
      invariant FirstLabel(ms, raw) == FirstLabel(ms[i..], raw)
    {
      if ms[i].raw == raw { return Some(ms[i].name); }
    }
    return None;
  }

  method LoadSignal(s: Signal, frame: array<byte>) returns (raw: uint64)
    requires Loadable(s) && frame.Length <= FRAME_MAX_LENGTH && Fits(PlacementOf(s), frame.Length)
    ensures raw == RawOf(frame[..], PlacementOf(s))
  {
    var w: nat;
    if s.layout.Sawtooth? {
      w := LoadSaw(frame, s.startBit, s.bitLength);
    } else {
      w := LoadRun(frame, s.firstBit, s.bitLength);
    }
    LoadedUnique(frame[..], PlacementOf(s), w, RawOf(frame[..], PlacementOf(s)));
    WordBound(s, frame[..]);
    raw := w;
  }

  method DecodeOne(s: Signal, frame: array<byte>) returns (out: Decoded)
    requires Loadable(s) && frame.Length <= FRAME_MAX_LENGTH && Fits(PlacementOf(s), frame.Length)
    ensures out == SignalImage(s, frame[..])
  {
    var raw := LoadSignal(s, frame);
    out := DecodeRaw(s, raw);
  }

  method TooShort(s: Signal, length: nat) returns (tooShort: bool)
    requires Loadable(s) && length <= FRAME_MAX_LENGTH
    ensures tooShort <==> !Fits(PlacementOf(s), length)
  {
    if s.layout.Sawtooth? {
      var fits := SawFits(length, s.startBit, s.bitLength);
      tooShort := !fits;
    } else {
      tooShort := s.lastBit >= length * 8;
    }
  }

  /** `out` is None when *out is left untouched. */
  method DecodeSignal(s: Signal, frame: array?<byte>) returns (status: Status, out: Option<Decoded>)
    requires Loadable(s)
    ensures frame == null ==> status == ErrNull && out == None
    ensures frame != null && !FrameLengthOk(frame.Length) ==> status == ErrArgument && out == None
    ensures frame != null && FrameLengthOk(frame.Length) ==>
              if Fits(PlacementOf(s), frame.Length) then status == Ok && out == Some(SignalImage(s, frame[..]))
              else status == ErrFrameTooShort && out == None
  {
    if frame == null { return ErrNull, None; }
    if !FrameLengthOk(frame.Length) { return ErrArgument, None; }
    var short := TooShort(s, frame.Length);
    if short { return ErrFrameTooShort, None; }
    var d := DecodeOne(s, frame);
    return Ok, Some(d);
  }

  method FindMessage(messages: seq<Message>, canId: nat) returns (found: Option<Message>)
    ensures found == MessageById(messages, canId)
  {
    for i := 0 to |messages|
      invariant MessageById(messages, canId) == MessageById(messages[i..], canId)
    {
      if messages[i].id == canId { return Some(messages[i]); }
    }
    return None;
  }

  /** The first message with that id. */
  function MessageById(messages: seq<Message>, canId: nat): (found: Option<Message>)
    ensures found.None? <==> forall m | m in messages :: m.id != canId
    ensures found.Some? ==> found.value in messages && found.value.id == canId
  {
    if messages == [] then None
    else if messages[0].id == canId then Some(messages[0])
    else MessageById(messages[1..], canId)
  }

  /** Outcome of the frame decode, in the order in which the checks are made; None is a null pointer. */
  ghost function FrameStatus(messages: Option<seq<Message>>, canId: nat, length: Option<nat>, capacity: Option<nat>,
                             counted: bool): Status
    requires messages.Some? ==> forall m | m in messages.value :: AllLoadable(m.signals)
  {
    if messages.None? || length.None? || !counted then ErrNull
    else if capacity.None? || capacity.value == 0 || !FrameLengthOk(length.value) then ErrArgument
    else match MessageById(messages.value, canId)
         case None => ErrNotFound
         case Some(m) =>
           if |m.signals| > capacity.value then ErrArgument
           else if AllFit(m.signals, length.value) then Ok else WarnFrameTooShort
  }

  function LengthOf<T>(a: array?<T>): Option<nat> {
    if a == null then None else Some(a.Length)
  }

  /** The size_t that the caller owns for the number of signals. */
  class SignalCount {
    var value: nat
  }

  /**
   Frame-level decode into caller-owned storage.  Either every signal of the
   message is written, in order, or nothing is.
   */
  method DecodeFrame(messages: Option<seq<Message>>, canId: nat, frame: array?<byte>, signals: array?<Decoded>,
                     count: SignalCount?, warnings: Warnings?)
    returns (status: Status)
    requires messages.Some? ==> forall m | m in messages.value :: AllLoadable(m.signals)
    modifies signals, count, warnings
    ensures status == FrameStatus(messages, canId, LengthOf(frame), LengthOf(signals), count != null)
    ensures status == Ok ==>
              var m := MessageById(messages.value, canId).value;
              var n := |m.signals|;
              count.value == n && n <= signals.Length && AllFit(m.signals, |frame[..]|)
              && signals[..n] == MessageImage(m.signals, frame[..]) && signals[n..] == old(signals[..])[n..]
    ensures status != Ok && signals != null ==> signals[..] == old(signals[..])
    ensures status != Ok && count != null ==> count.value == old(count.value)
    ensures warnings != null ==>
              warnings.at == match status
                             case Ok =>
                               var m := MessageById(messages.value, canId).value;
                               Counted(old(warnings.at), MessageImage(m.signals, frame[..]), |m.signals|)
                             case WarnFrameTooShort => TooShortCounted(old(warnings.at))
                             case _ => old(warnings.at)
  {
    if messages.None? || frame == null || count == null { return ErrNull; }
    if signals == null || signals.Length == 0 { return ErrArgument; }
    if !FrameLengthOk(frame.Length) { return ErrArgument; }
    var found := FindMessage(messages.value, canId);
    if found.None? { return ErrNotFound; }
    var m := found.value;
    if |m.signals| > signals.Length { return ErrArgument; }
    var short := AnyTooShort(m.signals, frame.Length);
    if short {
      if warnings != null { warnings.at := TooShortCounted(warnings.at); }
      return WarnFrameTooShort;
    }
    DecodeAll(m.signals, frame, signals, warnings, MessageImage(m.signals, frame[..]));
    count.value := |m.signals|;
    return Ok;
  }

  /** The first loop of the frame decode: is any declared signal outside the frame? */
  method AnyTooShort(ss: seq<Signal>, length: nat) returns (short: bool)
    requires AllLoadable(ss) && length <= FRAME_MAX_LENGTH
    ensures short <==> !AllFit(ss, length)
  {
    for i := 0 to |ss|
      invariant forall j | 0 <= j < i :: Fits(PlacementOf(ss[j]), length)
    {
      var s := TooShort(ss[i], length);
      if s { return true; }
    }
    return false;
  }

  /** The second loop: decode every signal and count the unlabelled enums. */
  method DecodeAll(ss: seq<Signal>, frame: array<byte>, signals: array<Decoded>, warnings: Warnings?, ghost image: seq<Decoded>)
    requires AllLoadable(ss) && frame.Length <= FRAME_MAX_LENGTH && AllFit(ss, frame.Length)
    requires |ss| <= signals.Length && image == MessageImage(ss, frame[..])
    modifies signals, warnings
    ensures forall j | 0 <= j < |ss| :: signals[j] == image[j]
    ensures forall j | |ss| <= j < signals.Length :: signals[j] == old(signals[j])
    ensures warnings != null ==> warnings.at == Counted(old(warnings.at), image, |ss|)
  {
    hide Fits, PlacementOf, Pow2, Loadable;
    for i := 0 to |ss|
      invariant forall j | 0 <= j < i :: signals[j] == image[j]
      invariant forall j | i <= j < signals.Length :: signals[j] == old(signals[j])
      invariant warnings != null ==> warnings.at == Counted(old(warnings.at), image, i)
    {
      var d := DecodeOne(ss[i], frame);
      assert d == image[i] && d.signal == ss[i];
      hide MessageImage, SignalImage, Unknown;
      signals[i] := d;
      CountOne(d, warnings);
    }
  }

  method CountOne(d: Decoded, warnings: Warnings?)
    modifies warnings
    ensures warnings != null ==> warnings.at == if IsUnlabelled(d) then Unknown(old(warnings.at)) else old(warnings.at)
  {
    if d.signal.kind.TypeEnum? && d.caption.None? && warnings != null {
      warnings.at := Unknown(warnings.at);
    }
  }
}
