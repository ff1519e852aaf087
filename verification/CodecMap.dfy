/**
 The codec-map compiler's signal checks and derived bits
 (tools/yaml2c/codec_codegen.py), beside those of the C loader
 (core/codec/src/loader.c): what is accepted at generation time is what the
 decoder can read at run time, and how far the two agree.
 */
module CodecMap {
  import opened CodecBits
  import opened CodecTypes
  import opened Wrappers
  import opened Bits
  import opened Words
  import opened Names

  const CLASSIC_BITS := 64
  const FD_BITS := 512
  const NAME_MAX := 64
  const UNIT_MAX := 32
  const LABEL_MAX := 64

  datatype MapError =
    | NameLength | StartBitRange | BitLengthRange | DuplicateName | ScaleZero | UnitLength
    | LabelKey | LabelLength | EnumWithoutValues | BooleanWidth
    | SawtoothExceeds | LittleExceeds | BigBelowZero

  /** One entry of a signal's value mapping. */
  datatype Label = Label(raw: nat, text: string)

  /** A signal of the map document; `labels` is None when it has no value mapping. */
  datatype SignalDoc = SignalDoc(
    name: string, startBit: nat, bitLength: nat, kind: SignalType, little: bool, layout: Layout,
    scale: real, offset: real, units: Option<string>, labels: Option<seq<Label>>,
    hasMin: bool, min: real, hasMax: bool, max: real, strict: bool)

  function LabelsOf(doc: SignalDoc): seq<Label> {
    if doc.labels.None? then [] else doc.labels.value
  }

  /** Payload bit of raw bit i, for each layout; may be negative for a bad document. */
  function SpecifiedBit(doc: SignalDoc, i: nat): int
    requires i < doc.bitLength
  {
    if doc.layout.Sawtooth? then BeBit(BeIdx(doc.startBit) + (doc.bitLength - 1 - i))
    else if doc.little then doc.startBit + i
    else doc.startBit - (doc.bitLength - 1) + i
  }

  ghost predicate InsidePayload(doc: SignalDoc, bits: nat) {
    forall i: nat | i < doc.bitLength :: 0 <= SpecifiedBit(doc, i) < bits
  }

  /** A value key fits the signal. */
  predicate KeyFits(doc: SignalDoc, l: Label)
    requires 1 <= doc.bitLength <= 64
  {
    l.raw < Pow2(doc.bitLength)
  }

  /** The rules that the compiler and the loader share; both measure texts in UTF-8 bytes. */
  ghost predicate CommonRules(doc: SignalDoc, bits: nat) {
    && Utf8Length(doc.name) <= NAME_MAX && doc.startBit < bits && 1 <= doc.bitLength <= 64
    && ((doc.kind.TypeUint? || doc.kind.TypeInt?) ==> doc.scale != 0.0)
    && (forall l | l in LabelsOf(doc) :: KeyFits(doc, l) && Utf8Length(l.text) <= LABEL_MAX)
    && (doc.kind.TypeEnum? ==> LabelsOf(doc) != [])
    && (doc.kind.TypeBoolean? ==> doc.bitLength == 1)
    && InsidePayload(doc, bits)
  }

  predicate UnitFits(doc: SignalDoc) {
    doc.units.Some? ==> Utf8Length(doc.units.value) <= UNIT_MAX
  }

  /** What the compiler accepts, after the signals of those names in the same message. */
  ghost predicate ReaderAccepts(doc: SignalDoc, seen: seq<string>, bits: nat) {
    CommonRules(doc, bits) && UnitFits(doc) && doc.name !in seen
  }

  predicate CrossedLimits(doc: SignalDoc) {
    doc.hasMin && doc.hasMax && doc.min > doc.max
  }

  /** The loader measures a unit by strlen. */
  predicate LoaderUnitFits(doc: SignalDoc) {
    doc.units.Some? ==> UntilNul(doc.units.value) != "" && Utf8Length(UntilNul(doc.units.value)) <= UNIT_MAX
  }

  /** And compares names by strcmp. */
  predicate Repeats(names: seq<string>, name: string) {
    exists n | n in names :: UntilNul(n) == UntilNul(name)
  }

  /** What the loader's signal checks accept; its YAML has no empty mapping. */
  ghost predicate LoaderParses(doc: SignalDoc, bits: nat) {
    && CommonRules(doc, bits) && LoaderUnitFits(doc)
    && doc.name != "" && doc.labels != Some([]) && (forall l | l in LabelsOf(doc) :: l.text != "")
    && (doc.layout.Sawtooth? ==> !doc.little)
    && !CrossedLimits(doc)
  }

  /** What the loader accepts, after the signals of those names in the whole map. */
  ghost predicate LoaderAccepts(doc: SignalDoc, before: seq<string>, bits: nat) {
    LoaderParses(doc, bits) && !Repeats(before, doc.name)
  }

  /** The mapping array as the decoder sees it. */
  function Mappings(labels: seq<Label>): (ms: seq<Mapping>)
    requires forall l | l in labels :: l.raw < UINT64_MODULUS
    ensures |ms| == |labels| && forall i | 0 <= i < |labels| :: ms[i] == Mapping(labels[i].raw, labels[i].text)
  {
    seq(|labels|, i requires 0 <= i < |labels| => Mapping(labels[i].raw, labels[i].text))
  }

  predicate KeysAreWords(doc: SignalDoc) {
    forall l | l in LabelsOf(doc) :: l.raw < UINT64_MODULUS
  }

  /** `s` is a signal as the decoder needs it, with the document's fields and with its bits where the document puts them. */
  ghost predicate EmittedFrom(doc: SignalDoc, s: Signal) {
    && KeysAreWords(doc)
    && s.name == doc.name && s.kind == doc.kind && s.scale == doc.scale && s.offset == doc.offset
    && s.startBit == doc.startBit && s.bitLength == doc.bitLength && s.layout == doc.layout
    && s.values == (if LabelsOf(doc) == [] then None else Some(Mappings(LabelsOf(doc))))
    && s.hasMin == doc.hasMin && s.min == doc.min && s.hasMax == doc.hasMax && s.max == doc.max && s.strict == doc.strict
    && Loadable(s)
    && forall i: nat | i < doc.bitLength :: Position(PlacementOf(s), i) == SpecifiedBit(doc, i)
  }

  lemma KeysBelowWord(doc: SignalDoc)
    requires 1 <= doc.bitLength <= 64 && forall l | l in LabelsOf(doc) :: KeyFits(doc, l)
    ensures KeysAreWords(doc)
  {
    Pow2Facts();
    Pow2Mono(doc.bitLength, 64);
  }

  /** A signal of the map model; firstBit and lastBit are filled in by `Derive`. */
  class SignalModel {
    const doc: SignalDoc
    var firstBit: nat
    var lastBit: nat

    constructor (doc: SignalDoc)
      ensures this.doc == doc
    {
      this.doc := doc;
      firstBit, lastBit := 0, 0;
    }

    function Placed(): Placement
      reads this
    {
      if doc.layout.Sawtooth? then Saw(doc.startBit, doc.bitLength) else Run(firstBit, doc.bitLength)
    }

    /** The emitted C initializer, as the decoder sees it. */
    function Emitted(): Signal
      requires KeysAreWords(doc)
      reads this
    {
      Signal(doc.name, doc.startBit, doc.bitLength, doc.kind, doc.scale, doc.offset,
             if LabelsOf(doc) == [] then None else Some(Mappings(LabelsOf(doc))),
             doc.hasMin, doc.min, doc.hasMax, doc.max, doc.strict, firstBit, lastBit, doc.layout)
    }

    /** `names` are the signal names of the message so far, the new one included. */
    method Read(seen: seq<string>, maxPayloadBits: nat) returns (error: Option<MapError>, names: seq<string>)
      requires maxPayloadBits == CLASSIC_BITS || maxPayloadBits == FD_BITS
      modifies this
      ensures error == None <==> ReaderAccepts(doc, seen, maxPayloadBits)
      ensures error == None ==> names == seen + [doc.name]
      ensures error == None ==>
                && KeysAreWords(doc) && EmittedFrom(doc, Emitted())
                && IsExtent(PlacementOf(Emitted()), firstBit, lastBit)
      ensures error != None ==> unchanged(this) && names == seen
    {
      hide EmittedFrom, IsExtent, PlacementOf, BeIdx, BeBit, Pow2, KeysAreWords;
      names := seen;
      error := Check(seen, maxPayloadBits);
      if error.Some? { return; }
      KeysBelowWord(doc);
      CheckIsExact(doc, maxPayloadBits);
      Derive();
      EmittedIsPlaced(this);
      names := seen + [doc.name];
    }

    method Check(seen: seq<string>, maxPayloadBits: nat) returns (error: Option<MapError>)
      requires maxPayloadBits == CLASSIC_BITS || maxPayloadBits == FD_BITS
      ensures error == None <==> ReaderAccepts(doc, seen, maxPayloadBits)
    {
      hide KeyFits, InsidePayload, BeIdx, Utf8Length;
      if Utf8Length(doc.name) > NAME_MAX { return Some(NameLength); }
      if doc.startBit > maxPayloadBits - 1 { return Some(StartBitRange); }
      if doc.bitLength < 1 || doc.bitLength > 64 { return Some(BitLengthRange); }
      if doc.name in seen { return Some(DuplicateName); }
      if (doc.kind.TypeUint? || doc.kind.TypeInt?) && doc.scale == 0.0 { return Some(ScaleZero); }
      if doc.units.Some? && Utf8Length(doc.units.value) > UNIT_MAX { return Some(UnitLength); }
      error := CheckLabels();
      if error.Some? { return; }
      if doc.kind.TypeEnum? && LabelsOf(doc) == [] { return Some(EnumWithoutValues); }
      if doc.kind.TypeBoolean? && doc.bitLength != 1 { return Some(BooleanWidth); }
      CheckIsExact(doc, maxPayloadBits);
      if doc.layout.Sawtooth? {
        var idx := BeIdx(doc.startBit);
        if idx + doc.bitLength > maxPayloadBits { return Some(SawtoothExceeds); }
      } else if doc.little {
        if doc.startBit + doc.bitLength > maxPayloadBits { return Some(LittleExceeds); }
      } else if doc.startBit < doc.bitLength - 1 {
        return Some(BigBelowZero);
      }
      return None;
    }

    method CheckLabels() returns (error: Option<MapError>)
      requires 1 <= doc.bitLength <= 64
      ensures error == None <==> forall l | l in LabelsOf(doc) :: KeyFits(doc, l) && Utf8Length(l.text) <= LABEL_MAX
    {
      hide Pow2, Utf8Length;
      var labels := LabelsOf(doc);
      for i := 0 to |labels|
        invariant forall j | 0 <= j < i :: KeyFits(doc, labels[j]) && Utf8Length(labels[j].text) <= LABEL_MAX
      {
        assert labels[i] in labels;
        if labels[i].raw >= UINT64_MODULUS || labels[i].raw >= Pow2(doc.bitLength) {
          WordTooLarge(doc, labels[i]);
          return Some(LabelKey);
        }
        if Utf8Length(labels[i].text) > LABEL_MAX { return Some(LabelLength); }
      }
      return None;
    }

    method Derive()
      requires 1 <= doc.bitLength <= 64
      requires doc.layout.Contiguous? && !doc.little ==> doc.startBit >= doc.bitLength - 1
      modifies this
      ensures doc.layout.Contiguous? ==> lastBit == firstBit + doc.bitLength - 1
      ensures forall i: nat | i < doc.bitLength :: Position(Placed(), i) == SpecifiedBit(doc, i)
      ensures IsExtent(Placed(), firstBit, lastBit)
    {
      if doc.layout.Sawtooth? {
        var idx := BeIdx(doc.startBit);
        var positions := seq<nat>(doc.bitLength, k requires 0 <= k => BeBit(idx + k));
        SawtoothExtent(Saw(doc.startBit, doc.bitLength), positions);
        hide BeIdx, BeBit, IsExtent, SpecifiedBit;
        firstBit := Least(positions);
        lastBit := Greatest(positions);
      } else if doc.little {
        firstBit := doc.startBit;
        lastBit := doc.startBit + doc.bitLength - 1;
      } else {
        firstBit := doc.startBit - (doc.bitLength - 1);
        lastBit := doc.startBit;
      }
      hide BeIdx, BeBit, IsExtent;
      DerivedIsExact(doc, Placed(), firstBit, lastBit);
    }
  }

  lemma EmittedIsPlaced(m: SignalModel)
    requires 1 <= m.doc.bitLength <= 64 && m.doc.startBit < FD_BITS && KeysAreWords(m.doc)
    requires (m.doc.kind.TypeUint? || m.doc.kind.TypeInt?) ==> m.doc.scale != 0.0
    requires m.doc.kind.TypeBoolean? ==> m.doc.bitLength == 1
    requires m.doc.layout.Contiguous? ==> m.lastBit == m.firstBit + m.doc.bitLength - 1
    requires forall i: nat | i < m.doc.bitLength :: Position(m.Placed(), i) == SpecifiedBit(m.doc, i)
    ensures PlacementOf(m.Emitted()) == m.Placed() && EmittedFrom(m.doc, m.Emitted())
  {
    hide BeIdx, BeBit, SpecifiedBit, Position;
  }

  lemma WordTooLarge(doc: SignalDoc, l: Label)
    requires 1 <= doc.bitLength <= 64 && (l.raw >= UINT64_MODULUS || l.raw >= Pow2(doc.bitLength))
    ensures !KeyFits(doc, l)
  {
    Pow2Facts();
    Pow2Mono(doc.bitLength, 64);
  }

  lemma DerivedIsExact(doc: SignalDoc, pl: Placement, first: nat, last: nat)
    requires 1 <= doc.bitLength <= 64
    requires doc.layout.Sawtooth? ==> pl == Saw(doc.startBit, doc.bitLength) && IsExtent(pl, first, last)
    requires doc.layout.Contiguous? ==>
               pl == Run(first, doc.bitLength) && first == SpecifiedBit(doc, 0) && last == SpecifiedBit(doc, doc.bitLength - 1)
    ensures forall i: nat | i < doc.bitLength :: Position(pl, i) == SpecifiedBit(doc, i)
    ensures IsExtent(pl, first, last)
  {
    hide BeIdx, BeBit;
    if doc.layout.Contiguous? {
      assert Position(pl, 0) == first && Position(pl, doc.bitLength - 1) == last;
    }
  }

  lemma SawtoothExtent(pl: Placement, positions: seq<nat>)
    requires pl.Saw? && pl.count >= 1 && |positions| == pl.count
    requires forall k: nat | k < pl.count :: positions[k] == BeBit(BeIdx(pl.start) + k)
    ensures IsExtent(pl, Least(positions), Greatest(positions))
  {
    forall i: nat | i < pl.count ensures positions[pl.count - 1 - i] == Position(pl, i) {}
    hide BeBit, BeIdx, Position, Least, Greatest;
    var a :| 0 <= a < pl.count && positions[a] == Least(positions);
    var b :| 0 <= b < pl.count && positions[b] == Greatest(positions);
    var i, j := pl.count - 1 - a, pl.count - 1 - b;
    assert positions[pl.count - 1 - i] == Position(pl, i) && positions[pl.count - 1 - j] == Position(pl, j);
    forall i: nat | i < pl.count ensures Least(positions) <= Position(pl, i) <= Greatest(positions) {
      assert positions[pl.count - 1 - i] in positions;
    }
  }

  /** The three inequalities say exactly that no specified bit leaves the payload. */
  lemma CheckIsExact(doc: SignalDoc, bits: nat)
    requires bits == CLASSIC_BITS || bits == FD_BITS
    requires 1 <= doc.bitLength && doc.startBit < bits
    ensures InsidePayload(doc, bits) <==>
            if doc.layout.Sawtooth? then BeIdx(doc.startBit) + doc.bitLength <= bits
            else if doc.little then doc.startBit + doc.bitLength <= bits
            else doc.startBit >= doc.bitLength - 1
  {
    hide BeIdx, BeBit;
    if doc.layout.Sawtooth? {
      SawtoothCheckIsExact(doc, bits);
    } else {
      var first, last := SpecifiedBit(doc, 0), SpecifiedBit(doc, doc.bitLength - 1);
    }
  }

  lemma SawtoothCheckIsExact(doc: SignalDoc, bits: nat)
    requires bits % 8 == 0 && doc.layout.Sawtooth? && 1 <= doc.bitLength
    ensures InsidePayload(doc, bits) <==> BeIdx(doc.startBit) + doc.bitLength <= bits
  {
    hide BeIdx, BeBit;
    var pl := Saw(doc.startBit, doc.bitLength);
    FitsIffBitsInside(pl, bits / 8);
    assert 8 * (bits / 8) == bits;
    forall i: nat | i < doc.bitLength ensures SpecifiedBit(doc, i) == Position(pl, i) {}
  }

  function Least(s: seq<nat>): (m: nat)
    requires s != []
    ensures m in s && forall x | x in s :: m <= x
  {
    if |s| == 1 then s[0] else
      assert s == [s[0]] + s[1..];
      var rest := Least(s[1..]);
      if s[0] < rest then s[0] else rest
  }

  function Greatest(s: seq<nat>): (m: nat)
    requires s != []
    ensures m in s && forall x | x in s :: x <= m
  {
    if |s| == 1 then s[0] else
      assert s == [s[0]] + s[1..];
      var rest := Greatest(s[1..]);
      if s[0] > rest then s[0] else rest
  }

  /**
   Static fit is run-time fit: on a frame of any length, the decoder's too-short
   test of an accepted signal fails exactly when its derived last bit is inside,
   so it never fires on a full-size frame.
   */
  lemma StaticFitIsRuntimeFit(s: Signal, first: nat, last: nat, bits: nat, length: nat)
    requires Loadable(s) && IsExtent(PlacementOf(s), first, last)
    requires bits == CLASSIC_BITS || bits == FD_BITS
    requires forall i: nat | i < s.bitLength :: Position(PlacementOf(s), i) < bits
    ensures Fits(PlacementOf(s), length) <==> last < 8 * length
    ensures length >= bits / 8 ==> Fits(PlacementOf(s), length)
  {
    ExtentDecidesFit(PlacementOf(s), first, last, length);
    hide PlacementOf, Fits, Loadable, Position;
  }

  // ---------------------------------------------------------------------------
  // The C loader
  // ---------------------------------------------------------------------------

  /** The signal checks of the loader, in its order. */
  method LoaderParseSignal(doc: SignalDoc, maxPayloadBits: nat) returns (ok: bool)
    requires maxPayloadBits == CLASSIC_BITS || maxPayloadBits == FD_BITS
    ensures ok <==> LoaderParses(doc, maxPayloadBits)
  {
    hide Pow2, Utf8Length, UntilNul;
    if doc.name == "" || Utf8Length(doc.name) > NAME_MAX { return false; }
    if doc.startBit > maxPayloadBits - 1 { return false; }
    if doc.bitLength < 1 || doc.bitLength > 64 { return false; }
    if doc.layout.Sawtooth? && doc.little { return false; }
    if (doc.kind.TypeUint? || doc.kind.TypeInt?) && doc.scale == 0.0 { return false; }
    if doc.units.Some? {
      if UntilNul(doc.units.value) == "" { return false; }
      if Utf8Length(UntilNul(doc.units.value)) > UNIT_MAX { return false; }
    }
    if doc.labels.Some? {
      var labels := doc.labels.value;
      if labels == [] { return false; }
      for i := 0 to |labels|
        invariant forall j | 0 <= j < i :: KeyFits(doc, labels[j]) && labels[j].text != "" && Utf8Length(labels[j].text) <= LABEL_MAX
      {
        assert labels[i] in LabelsOf(doc);
        if labels[i].raw >= UINT64_MODULUS { WordTooLarge(doc, labels[i]); return false; }
        if doc.bitLength < 64 && labels[i].raw >= Pow2(doc.bitLength) { return false; }
        if doc.bitLength == 64 { Pow2Facts(); }
        if labels[i].text == "" || Utf8Length(labels[i].text) > LABEL_MAX { return false; }
      }
    }
    if doc.hasMin && doc.hasMax && doc.min > doc.max { return false; }
    if doc.kind.TypeBoolean? && doc.bitLength != 1 { return false; }
    if doc.kind.TypeEnum? && doc.labels.None? { return false; }
    CheckIsExact(doc, maxPayloadBits);
    if doc.layout.Sawtooth? {
      return BeIdx(doc.startBit) + doc.bitLength <= maxPayloadBits;
    } else if doc.little {
      return doc.startBit + doc.bitLength <= maxPayloadBits;
    } else {
      return doc.startBit >= doc.bitLength - 1;
    }
  }

  /** The loader's search of the whole map for a repeated name; `names` are all signal names in map order. */
  method LoaderNamesDiffer(names: seq<string>) returns (ok: bool)
    ensures ok <==> forall i | 0 <= i < |names| :: !Repeats(names[..i], names[i])
  {
    hide UntilNul;
    for s := 0 to |names|
      invariant forall i, j | 0 <= i < s && i < j < |names| :: UntilNul(names[i]) != UntilNul(names[j])
    {
      for ss := s + 1 to |names|
        invariant forall j | s < j < ss :: UntilNul(names[s]) != UntilNul(names[j])
      {
        if UntilNul(names[s]) == UntilNul(names[ss]) {
          assert names[s] in names[..ss];
          return false;
        }
      }
    }
    return true;
  }

  /**
   What the compiler accepts, the loader accepts too, unless the layout is
   sawtooth with little endianness, the limits are crossed, the name, the unit or
   a label is empty, a mapping is written but empty, or the name was used before
   anywhere in the map.
   */
  lemma LoaderAgreesIff(doc: SignalDoc, seen: seq<string>, before: seq<string>, bits: nat)
    requires ReaderAccepts(doc, seen, bits)
    ensures LoaderAccepts(doc, before, bits) <==>
            && !(doc.layout.Sawtooth? && doc.little) && !CrossedLimits(doc)
            && doc.name != "" && (doc.units.Some? ==> UntilNul(doc.units.value) != "")
            && (forall l | l in LabelsOf(doc) :: l.text != "")
            && doc.labels != Some([]) && !Repeats(before, doc.name)
  {
    hide InsidePayload, KeyFits, Utf8Length, UntilNul;
  }

  /** And what the loader accepts, the compiler does, unless a null character hides from strlen that the unit is too long. */
  lemma ReaderAgreesIff(doc: SignalDoc, seen: seq<string>, before: seq<string>, bits: nat)
    requires LoaderAccepts(doc, before, bits) && forall n | n in seen :: n in before
    ensures ReaderAccepts(doc, seen, bits) <==> UnitFits(doc)
    ensures doc.units.None? || '\0' !in doc.units.value ==> ReaderAccepts(doc, seen, bits)
  {
    hide InsidePayload, KeyFits, Utf8Length, UntilNul;
  }

  /** The raw bits of a document's signal stay inside a payload of that many bits. */
  ghost predicate BitsInside(doc: SignalDoc, bits: nat) {
    forall i: nat | i < doc.bitLength :: 0 <= SpecifiedBit(doc, i) < bits
  }

  predicate IsNumber(doc: SignalDoc) { doc.kind.TypeUint? || doc.kind.TypeInt? }

  /** What the compiler accepts, field by field; payloads are 64 or 512 bits. */
  lemma ReaderAcceptsIff(doc: SignalDoc, seen: seq<string>, bits: nat)
    requires bits == 64 || bits == 512
    ensures ReaderAccepts(doc, seen, bits) <==>
            && Utf8Length(doc.name) <= 64 && doc.name !in seen && doc.startBit < bits && 1 <= doc.bitLength <= 64 && BitsInside(doc, bits)
            && (IsNumber(doc) ==> doc.scale != 0.0) && (doc.kind.TypeBoolean? ==> doc.bitLength == 1)
            && (doc.kind.TypeEnum? ==> doc.labels.Some? && doc.labels.value != [])
            && (doc.units.Some? ==> Utf8Length(doc.units.value) <= 32)
            && (doc.labels.Some? ==> forall l | l in doc.labels.value :: l.raw < Pow2(doc.bitLength) && Utf8Length(l.text) <= 64)
  {
    hide Utf8Length, Pow2, SpecifiedBit;
  }

  /** What the loader accepts of a signal, field by field. */
  lemma LoaderParsesIff(doc: SignalDoc, bits: nat)
    requires bits == 64 || bits == 512
    ensures LoaderParses(doc, bits) <==>
            && doc.name != "" && Utf8Length(doc.name) <= 64 && doc.startBit < bits && 1 <= doc.bitLength <= 64 && BitsInside(doc, bits)
            && (IsNumber(doc) ==> doc.scale != 0.0) && (doc.kind.TypeBoolean? ==> doc.bitLength == 1)
            && (doc.kind.TypeEnum? ==> doc.labels.Some?) && (doc.layout.Sawtooth? ==> !doc.little)
            && !(doc.hasMin && doc.hasMax && doc.min > doc.max)
            && (doc.units.Some? ==> UntilNul(doc.units.value) != "" && Utf8Length(UntilNul(doc.units.value)) <= 32)
            && (doc.labels.Some? ==>
                  && doc.labels.value != []
                  && forall l | l in doc.labels.value :: l.raw < Pow2(doc.bitLength) && l.text != "" && Utf8Length(l.text) <= 64)
  {
    hide Utf8Length, UntilNul, Pow2, SpecifiedBit;
  }

  /** Where the bits of a signal are: along the sawtooth from its start, upwards from a little-endian start, downwards to a big-endian one. */
  lemma SpecifiedBitIs(doc: SignalDoc, i: nat)
    requires i < doc.bitLength
    ensures doc.layout.Sawtooth? && i == doc.bitLength - 1 ==> SpecifiedBit(doc, i) == doc.startBit
    ensures doc.layout.Sawtooth? && i > 0 ==>
              (SpecifiedBit(doc, i) % 8 > 0 && SpecifiedBit(doc, i - 1) == SpecifiedBit(doc, i) - 1)
              || (SpecifiedBit(doc, i) % 8 == 0 && SpecifiedBit(doc, i - 1) == SpecifiedBit(doc, i) + 15)
    ensures !doc.layout.Sawtooth? && doc.little ==> SpecifiedBit(doc, i) == doc.startBit + i
    ensures !doc.layout.Sawtooth? && !doc.little ==> SpecifiedBit(doc, doc.bitLength - 1) == doc.startBit
    ensures !doc.layout.Sawtooth? && !doc.little && i > 0 ==> SpecifiedBit(doc, i - 1) == SpecifiedBit(doc, i) - 1
  {
    if doc.layout.Sawtooth? {
      BeInverse(doc.startBit);
      if i > 0 { SawtoothStep(BeIdx(doc.startBit) + (doc.bitLength - 1 - i)); }
    }
    hide BeIdx, BeBit;
  }

  /** The next bit of the sawtooth is one lower in the byte, and after bit 0 the top bit of the next byte. */
  lemma SawtoothStep(k: nat)
    ensures if BeBit(k) % 8 > 0 then BeBit(k + 1) == BeBit(k) - 1 else BeBit(k + 1) == BeBit(k) + 15
  {
    var q, r := k / 8, k % 8;
    assert k == 8 * q + r;
    if r < 7 { DivUnique(k + 1, 8, q, r + 1); } else { DivUnique(k + 1, 8, q + 1, 0); }
  }

  /** An ordinary signal that both accept, and one variation of it for each disagreement. */
  const PLAIN_DOC := SignalDoc("s", 7, 8, TypeUint, false, Contiguous, 1.0, 0.0, None, None, false, 0.0, false, 0.0, true)
  const LITTLE_SAWTOOTH := PLAIN_DOC.(bitLength := 16, little := true, layout := Sawtooth)
  const CROSSED := PLAIN_DOC.(hasMin := true, min := 2.0, hasMax := true, max := 1.0)
  const NAMELESS := PLAIN_DOC.(name := "")
  const EMPTY_UNIT := PLAIN_DOC.(units := Some(""))
  const EMPTY_LABEL := PLAIN_DOC.(labels := Some([Label(0, "")]))
  const EMPTY_MAPPING := PLAIN_DOC.(labels := Some([]))
  const HIDDEN_UNIT := PLAIN_DOC.(units := Some(['m', '\0'] + Repeated('m', UNIT_MAX)))

  lemma Disagreements()
    ensures ReaderAccepts(PLAIN_DOC, [], CLASSIC_BITS) && LoaderAccepts(PLAIN_DOC, [], CLASSIC_BITS)
    ensures ReaderAccepts(LITTLE_SAWTOOTH, [], CLASSIC_BITS) && !LoaderAccepts(LITTLE_SAWTOOTH, [], CLASSIC_BITS)
    ensures ReaderAccepts(CROSSED, [], CLASSIC_BITS) && !LoaderAccepts(CROSSED, [], CLASSIC_BITS)
    ensures ReaderAccepts(NAMELESS, [], CLASSIC_BITS) && !LoaderAccepts(NAMELESS, [], CLASSIC_BITS)
    ensures ReaderAccepts(EMPTY_UNIT, [], CLASSIC_BITS) && !LoaderAccepts(EMPTY_UNIT, [], CLASSIC_BITS)
    ensures ReaderAccepts(EMPTY_LABEL, [], CLASSIC_BITS) && !LoaderAccepts(EMPTY_LABEL, [], CLASSIC_BITS)
    ensures ReaderAccepts(EMPTY_MAPPING, [], CLASSIC_BITS) && !LoaderAccepts(EMPTY_MAPPING, [], CLASSIC_BITS)
    ensures ReaderAccepts(PLAIN_DOC, [], CLASSIC_BITS) && !LoaderAccepts(PLAIN_DOC, ["s"], CLASSIC_BITS)
    ensures LoaderAccepts(HIDDEN_UNIT, [], CLASSIC_BITS) && !ReaderAccepts(HIDDEN_UNIT, [], CLASSIC_BITS)
  {
    hide InsidePayload, Pow2, UntilNul, Repeated;
    CheckIsExact(PLAIN_DOC, CLASSIC_BITS);
    CheckIsExact(LITTLE_SAWTOOTH, CLASSIC_BITS);
    SameBits(CROSSED);
    SameBits(NAMELESS);
    SameBits(EMPTY_UNIT);
    SameBits(EMPTY_LABEL);
    SameBits(EMPTY_MAPPING);
    SameBits(HIDDEN_UNIT);
    assert KeyFits(EMPTY_LABEL, Label(0, ""));
    assert Utf8Length("s") == 1;
    HiddenUnitIs();
  }

  lemma HiddenUnitIs()
    ensures UntilNul(HIDDEN_UNIT.units.value) == "m" && Utf8Length("m") == 1
    ensures Utf8Length(HIDDEN_UNIT.units.value) > UNIT_MAX
  {
    var t := HIDDEN_UNIT.units.value;
    assert t[0] == 'm' && t[1..][0] == '\0';
    assert UntilNul(t[1..]) == "";
  }

  lemma SameBits(doc: SignalDoc)
    requires doc.startBit == 7 && doc.bitLength == 8 && !doc.little && doc.layout.Contiguous?
    ensures InsidePayload(doc, CLASSIC_BITS)
  {
    CheckIsExact(doc, CLASSIC_BITS);
  }
}
