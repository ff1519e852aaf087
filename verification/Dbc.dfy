/** The DBC-to-codec-map compiler (tools/dbc2codec/dbc2codec.py). */
module Dbc {
  import opened Bits
  import opened CodecBits
  import opened CodecTypes
  import opened Wrappers
  import opened Decoder
  import opened Words
  import opened Names
  import E = Encoder
  import T = RoundTrip
  import opened CodecMap

  const PAYLOAD_MAX_BITS := 64
  const DLC_MAX := 8
  const TABLE_SIZE := 512

  /** The Motorola numbering table: entry k is the linear bit at sawtooth position k. */
  function BeBits(): (t: seq<nat>)
    ensures |t| == TABLE_SIZE && forall k: nat | k < TABLE_SIZE :: t[k] == BeBit(k)
  {
    seq<nat>(TABLE_SIZE, k requires 0 <= k => 7 - k % 8 + k / 8 * 8)
  }

  /** One parsed DBC signal; `lsb` and `msb` are payload bits. */
  datatype DbcSignal = DbcSignal(
    name: string, startBit: nat, size: nat, little: bool, signed: bool, factor: real, offset: real, units: string,
    lsb: int, msb: int)

  datatype DbcMessage = DbcMessage(frameId: nat, name: string, size: int, signals: seq<DbcSignal>)

  /**
   Construction of a DBC signal; None is the exception Python raises when the
   Motorola run leaves the table.
   */
  method NewSignal(name: string, startBit: nat, size: nat, little: bool, signed: bool, factor: real, offset: real, units: string)
    returns (r: Option<DbcSignal>)
    ensures r == if little then Some(DbcSignal(name, startBit, size, true, signed, factor, offset, units, startBit, startBit + size - 1))
                 else if BeIdx(startBit) + size > 512 || startBit >= 512 then None
                 else if BeIdx(startBit) + size == 0
                 then Some(DbcSignal(name, startBit, size, false, signed, factor, offset, units, BeBit(511), startBit))
                 else Some(DbcSignal(name, startBit, size, false, signed, factor, offset, units, BeBit(BeIdx(startBit) + size - 1), startBit))
    ensures r.Some? && size >= 1 ==> WellFormed(r.value)
  {
    if little {
      return Some(DbcSignal(name, startBit, size, true, signed, factor, offset, units, startBit, startBit + size - 1));
    }
    var idx := IndexOf(startBit);
    if idx.None? { return None; }
    var last := idx.value + size - 1;
    if last >= TABLE_SIZE { return None; }
    var lsb := if last >= 0 then BeBits()[last] else BeBits()[TABLE_SIZE + last];
    return Some(DbcSignal(name, startBit, size, false, signed, factor, offset, units, lsb, startBit));
  }

  /** list.index on the table: its closed form is the sawtooth index. */
  method IndexOf(p: nat) returns (idx: Option<nat>)
    ensures idx == if p < TABLE_SIZE then Some(BeIdx(p)) else None
  {
    var t := BeBits();
    BeBelow(p, 64);
    for k := 0 to TABLE_SIZE
      invariant forall j: nat | j < k :: t[j] != p
    {
      BeInverse(k);
      if t[k] == p {
        BeBelow(k, 64);
        return Some(k);
      }
    }
    BeInverse(p);
    return None;
  }

  /** Signals as `NewSignal` builds them, of at least one bit. */
  predicate WellFormed(g: DbcSignal) {
    && g.size >= 1
    && if g.little then g.lsb == g.startBit && g.msb == g.startBit + g.size - 1
       else BeIdx(g.startBit) + g.size <= TABLE_SIZE && g.msb == g.startBit
            && g.lsb == BeBit(BeIdx(g.startBit) + g.size - 1)
  }

  /** Payload bit of value bit i, as the DBC format defines it. */
  function DbcBit(g: DbcSignal, i: nat): nat
    requires i < g.size
  {
    if g.little then g.startBit + i else BeBit(BeIdx(g.startBit) + (g.size - 1 - i))
  }

  /** The raw value of a DBC signal in a frame. */
  ghost predicate DbcRaw(g: DbcSignal, f: seq<byte>, raw: nat)
    requires forall i: nat | i < g.size :: DbcBit(g, i) < 8 * |f|
  {
    raw < Pow2(g.size) && forall i: nat | i < g.size :: Bit(raw, i) == FrameBit(f, DbcBit(g, i))
  }

  /** The physical value of a DBC signal. */
  function DbcPhysical(g: DbcSignal, raw: nat): real
    requires 1 <= g.size <= 64 && raw < UINT64_MODULUS
  {
    (if g.signed then SignExtend(raw, g.size) else raw) as real * g.factor + g.offset
  }

  predicate DefaultScale(g: DbcSignal) { g.factor == 1.0 && g.offset == 0.0 }

  /** Every bit of the signal lies in the message's payload. */
  ghost predicate InsideMessage(dlc: int, g: DbcSignal) {
    forall i: nat | i < g.size :: DbcBit(g, i) < 8 * dlc
  }

  predicate LabelsFit(g: DbcSignal, values: seq<Label>) {
    forall l | l in values :: |l.text| <= LABEL_MAX && (g.size < 64 ==> l.raw < Pow2(g.size))
  }

  function KindOf(g: DbcSignal, values: seq<Label>): SignalType {
    if g.size == 1 && !g.signed && DefaultScale(g) then TypeBoolean
    else if values != [] && !g.signed && DefaultScale(g) then TypeEnum
    else if g.signed then TypeInt else TypeUint
  }

  /** The map entry that is emitted for an accepted signal. */
  function Entry(g: DbcSignal, values: seq<Label>): SignalDoc {
    var kind := KindOf(g, values);
    var numeric := kind.TypeInt? || kind.TypeUint?;
    var sawtooth := !g.little && g.msb / 8 != g.lsb / 8;
    SignalDoc(g.name, g.startBit, g.size, kind, g.little, if sawtooth then Sawtooth else Contiguous,
              if numeric then g.factor else 1.0, if numeric then g.offset else 0.0,
              if g.units == "" || |g.units| > UNIT_MAX then None else Some(g.units),
              if numeric || values == [] then None else Some(values),
              false, 0.0, false, 0.0, true)
  }

  /**
   map_signal.  A signal is representable exactly when its name and labels are
   short enough, counted in characters, and every one of its bits lies inside the
   message.
   */
  method MapSignal(dlc: int, g: DbcSignal, values: seq<Label>) returns (r: Option<SignalDoc>)
    requires WellFormed(g) && 0 <= dlc <= DLC_MAX
    ensures r == if |g.name| <= NAME_MAX && InsideMessage(dlc, g) && LabelsFit(g, values)
                 then Some(Entry(g, values)) else None
  {
    if |g.name| > NAME_MAX { return None; }
    BoundsAreExact(dlc, g);
    var isSaw := !g.little && g.msb / 8 != g.lsb / 8;
    var dlcBits := dlc * 8;
    if isSaw {
      var fits := SawtoothInside(g, dlcBits);
      if !fits { return None; }
    } else if g.little {
      if g.lsb + g.size > PAYLOAD_MAX_BITS { return None; }
      if g.lsb + g.size > dlcBits { return None; }
    } else {
      if g.msb < g.size - 1 { return None; }
      var first := g.msb - g.size + 1;
      if g.msb >= dlcBits || first >= dlcBits { return None; }
    }
    var units := if g.units == "" || |g.units| > UNIT_MAX then None else Some(g.units);
    if exists l | l in values :: |l.text| > LABEL_MAX { return None; }
    if g.size < 64 {
      var limit := Pow2(g.size);
      if exists l | l in values :: l.raw >= limit { return None; }
    }
    var kind := if g.size == 1 && !g.signed && DefaultScale(g) then TypeBoolean
                else if values != [] && !g.signed && DefaultScale(g) then TypeEnum
                else if g.signed then TypeInt else TypeUint;
    var numeric := kind.TypeInt? || kind.TypeUint?;
    return Some(SignalDoc(g.name, if g.little then g.lsb else g.msb, g.size, kind, g.little,
                          if isSaw then Sawtooth else Contiguous,
                          if numeric then g.factor else 1.0, if numeric then g.offset else 0.0, units,
                          if numeric || values == [] then None else Some(values),
                          false, 0.0, false, 0.0, true));
  }

  /** The sawtooth branch: the table walk for the greatest payload bit. */
  method SawtoothInside(g: DbcSignal, dlcBits: nat) returns (fits: bool)
    requires WellFormed(g) && !g.little
    ensures fits <==> BeIdx(g.startBit) + g.size <= PAYLOAD_MAX_BITS && forall i: nat | i < g.size :: DbcBit(g, i) < dlcBits
  {
    var beIdx := g.msb / 8 * 8 + (7 - g.msb % 8);
    if beIdx + g.size > PAYLOAD_MAX_BITS { return false; }
    var maxP: nat := 0;
    ghost var at: nat := 0;
    for k := 0 to g.size
      invariant forall i: nat | g.size - k <= i < g.size :: DbcBit(g, i) <= maxP
      invariant k > 0 ==> at < g.size && DbcBit(g, at) == maxP
      invariant k == 0 ==> maxP == 0
    {
      var p := BeBits()[beIdx + k];
      assert p == DbcBit(g, g.size - 1 - k);
      if p > maxP || k == 0 { at := g.size - 1 - k; }
      if p > maxP { maxP := p; }
    }
    fits := maxP < dlcBits;
  }

  function PlacementOfDbc(g: DbcSignal): Placement {
    if g.little then Run(g.startBit, g.size) else Saw(g.startBit, g.size)
  }

  /** The inequalities of map_signal, against the bit set they stand for. */
  lemma BoundsAreExact(dlc: nat, g: DbcSignal)
    requires WellFormed(g) && dlc <= DLC_MAX
    ensures InsideMessage(dlc, g) <==> Fits(PlacementOfDbc(g), dlc)
    ensures g.little ==> (InsideMessage(dlc, g) <==> g.lsb + g.size <= 8 * dlc)
    ensures !g.little && g.msb / 8 == g.lsb / 8 ==> g.msb >= g.size - 1
    ensures !g.little && g.msb / 8 == g.lsb / 8 ==> (InsideMessage(dlc, g) <==> g.msb < 8 * dlc)
    ensures !g.little && InsideMessage(dlc, g) ==> BeIdx(g.startBit) + g.size <= PAYLOAD_MAX_BITS
  {
    FitsIsInside(dlc, g);
    if !g.little && g.msb / 8 == g.lsb / 8 {
      SingleByteBounds(dlc, g);
    }
    hide BeIdx, BeBit, InsideMessage;
  }

  lemma FitsIsInside(dlc: nat, g: DbcSignal)
    requires WellFormed(g)
    ensures InsideMessage(dlc, g) <==> Fits(PlacementOfDbc(g), dlc)
  {
    hide BeIdx, BeBit;
    var pl := PlacementOfDbc(g);
    assert forall i: nat | i < g.size :: DbcBit(g, i) == Position(pl, i);
    FitsIffBitsInside(pl, dlc);
    hide Fits, Position, DbcBit;
  }

  lemma SingleByteBounds(dlc: nat, g: DbcSignal)
    requires WellFormed(g) && !g.little && g.msb / 8 == g.lsb / 8
    ensures g.msb >= g.size - 1
    ensures InsideMessage(dlc, g) <==> g.msb < 8 * dlc
  {
    SingleByteRun(g, 0);
    SingleByteRun(g, g.size - 1);
    forall i: nat | i < g.size ensures DbcBit(g, i) == g.startBit - (g.size - 1) + i { SingleByteRun(g, i); }
    hide BeIdx, BeBit, DbcBit;
    assert DbcBit(g, g.size - 1) == g.startBit;
  }

  /** A Motorola signal inside one byte is a contiguous run below its MSB. */
  lemma SingleByteRun(g: DbcSignal, i: nat)
    requires WellFormed(g) && !g.little && g.msb / 8 == g.lsb / 8 && i < g.size
    ensures DbcBit(g, i) == g.startBit - (g.size - 1) + i
  {
    var idx := BeIdx(g.startBit);
    BeByte(idx + g.size - 1);
    BeByte(idx);
    BeInverse(g.startBit);
    SameByte(idx, idx + (g.size - 1 - i), idx + g.size - 1);
  }

  lemma BeByte(k: nat)
    ensures BeBit(k) / 8 == k / 8
  {
  }

  lemma SameByte(a: nat, m: nat, b: nat)
    requires a <= m <= b && a / 8 == b / 8
    ensures BeBit(m) == BeBit(a) - (m - a)
  {
  }

  // ---------------------------------------------------------------------------
  // Meaning
  // ---------------------------------------------------------------------------

  /** The emitted bits are the DBC bits, single-byte Motorola signals included. */
  lemma SameBitsEmitted(g: DbcSignal, values: seq<Label>, i: nat)
    requires WellFormed(g) && i < g.size
    ensures SpecifiedBit(Entry(g, values), i) == DbcBit(g, i)
  {
    if !g.little && g.msb / 8 == g.lsb / 8 { SingleByteRun(g, i); }
  }

  /** Every accepted entry has its bits inside the payload. */
  lemma EntryIsInsidePayload(dlc: nat, g: DbcSignal, values: seq<Label>)
    requires WellFormed(g) && dlc <= DLC_MAX && InsideMessage(dlc, g)
    ensures 1 <= g.size <= 64 && g.startBit < PAYLOAD_MAX_BITS
    ensures InsidePayload(Entry(g, values), PAYLOAD_MAX_BITS)
  {
    BoundsAreExact(dlc, g);
    hide BeIdx, BeBit, SpecifiedBit;
    forall i: nat | i < g.size ensures 0 <= SpecifiedBit(Entry(g, values), i) < PAYLOAD_MAX_BITS {
      SameBitsEmitted(g, values, i);
    }
    assert DbcBit(g, if g.little then 0 else g.size - 1) == g.startBit by { BeInverse(g.startBit); }
  }

  /** What map_signal accepts. */
  ghost predicate Representable(dlc: nat, g: DbcSignal, values: seq<Label>) {
    WellFormed(g) && dlc <= DLC_MAX && |g.name| <= NAME_MAX && InsideMessage(dlc, g) && LabelsFit(g, values)
  }

  /** The raw word is the value: unsigned, with factor 1 and offset 0. */
  predicate RawReading(g: DbcSignal) { !g.signed && g.factor == 1.0 && g.offset == 0.0 }

  /** What map_signal accepts, number by number. */
  lemma RepresentableIff(dlc: nat, g: DbcSignal, values: seq<Label>)
    requires WellFormed(g) && dlc <= 8
    ensures Representable(dlc, g, values) <==>
            && |g.name| <= 64
            && (forall i: nat | i < g.size :: DbcBit(g, i) < 8 * dlc)
            && (forall l | l in values :: |l.text| <= 64)
            && (forall l | l in values && g.size < 64 :: l.raw < Pow2(g.size))
  {
    hide DbcBit, Pow2;
  }

  /** Keys of more than 64 bits are not looked at for a signal of 64 bits. */
  predicate KeysFit(g: DbcSignal, values: seq<Label>) {
    RawReading(g) ==> forall l | l in values :: l.raw < UINT64_MODULUS
  }

  /** The labels that are emitted. */
  function EmittedLabels(g: DbcSignal, values: seq<Label>): seq<Label> {
    if RawReading(g) then values else []
  }

  predicate UnitEmitted(g: DbcSignal) { 0 < |g.units| <= 32 }

  /** The emitted texts fit in bytes, as the codec-map compiler counts them. */
  predicate TextsFit(g: DbcSignal, values: seq<Label>) {
    && Utf8Length(g.name) <= 64
    && (UnitEmitted(g) ==> Utf8Length(g.units) <= 32)
    && forall l | l in EmittedLabels(g, values) :: Utf8Length(l.text) <= 64
  }

  /** And as the loader does, which takes no empty text. */
  predicate LoadedTextsFit(g: DbcSignal, values: seq<Label>) {
    && 0 < Utf8Length(g.name) <= 64
    && (UnitEmitted(g) ==> 0 < Utf8Length(UntilNul(g.units)) <= 32)
    && forall l | l in EmittedLabels(g, values) :: 0 < Utf8Length(l.text) <= 64
  }

  lemma EntryLabels(g: DbcSignal, values: seq<Label>)
    ensures LabelsOf(Entry(g, values)) == EmittedLabels(g, values) && Entry(g, values).labels != Some([])
    ensures Entry(g, values).units == if UnitEmitted(g) then Some(g.units) else None
    ensures KindOf(g, values).TypeEnum? ==> EmittedLabels(g, values) != []
    ensures g.factor != 0.0 <==> !((KindOf(g, values).TypeUint? || KindOf(g, values).TypeInt?) && Entry(g, values).scale == 0.0)
  {
    assert g.factor == 0.0 ==> !DefaultScale(g);
  }

  lemma EntryKeys(dlc: nat, g: DbcSignal, values: seq<Label>)
    requires Representable(dlc, g, values) && 1 <= g.size <= 64
    ensures KeysFit(g, values) <==> forall l | l in EmittedLabels(g, values) :: KeyFits(Entry(g, values), l)
  {
    Pow2Facts();
    Pow2Mono(g.size, 64);
    hide InsideMessage, WellFormed, Pow2, DefaultScale;
    var doc := Entry(g, values);
    assert KindOf(g, values).TypeBoolean? ==> g.size == 1;
    forall l | l in values ensures KeyFits(doc, l) <==> l.raw < Pow2(g.size) {}
  }

  /** The rules of the compiler and the loader hold of an emitted entry exactly when the factor is not zero, its keys fit 64 bits and its texts fit in bytes. */
  lemma EntryRulesIff(dlc: nat, g: DbcSignal, values: seq<Label>)
    requires Representable(dlc, g, values)
    ensures CommonRules(Entry(g, values), PAYLOAD_MAX_BITS) <==>
            && g.factor != 0.0 && KeysFit(g, values) && Utf8Length(g.name) <= NAME_MAX
            && forall l | l in EmittedLabels(g, values) :: Utf8Length(l.text) <= LABEL_MAX
  {
    EntryIsInsidePayload(dlc, g, values);
    EntryLabels(g, values);
    EntryKeys(dlc, g, values);
    hide InsidePayload, InsideMessage, WellFormed, KeyFits, KeysFit, Utf8Length, LabelsFit, LabelsOf, EmittedLabels;
  }

  /** The codec-map compiler accepts an emitted entry exactly when the factor is not zero, its keys fit 64 bits and its texts fit in bytes. */
  lemma EntryCompilesIff(dlc: nat, g: DbcSignal, values: seq<Label>)
    requires Representable(dlc, g, values)
    ensures ReaderAccepts(Entry(g, values), [], PAYLOAD_MAX_BITS) <==> g.factor != 0.0 && KeysFit(g, values) && TextsFit(g, values)
  {
    EntryRulesIff(dlc, g, values);
    EntryLabels(g, values);
    hide CommonRules, Representable, KeysFit, Utf8Length, EmittedLabels, Entry;
  }

  /**
   "The generated artifact always loads" holds of an accepted signal, in a map in
   which no signal of that name comes before it, exactly when the factor is not
   zero, its keys fit 64 bits, and the name, an emitted unit and the emitted labels
   are neither empty nor too long in bytes.
   */
  lemma EntryLoadsIff(dlc: nat, g: DbcSignal, values: seq<Label>, before: seq<string>)
    requires Representable(dlc, g, values) && !Repeats(before, g.name)
    ensures LoaderAccepts(Entry(g, values), before, PAYLOAD_MAX_BITS)
            <==> g.factor != 0.0 && KeysFit(g, values) && LoadedTextsFit(g, values)
  {
    EntryRulesIff(dlc, g, values);
    EntryLabels(g, values);
    EntryLoads(g, values, before);
  }

  lemma EntryLoads(g: DbcSignal, values: seq<Label>, before: seq<string>)
    requires !Repeats(before, g.name)
    ensures LoaderAccepts(Entry(g, values), before, PAYLOAD_MAX_BITS)
            <==> CommonRules(Entry(g, values), PAYLOAD_MAX_BITS)
                 && g.name != "" && (UnitEmitted(g) ==> 0 < Utf8Length(UntilNul(g.units)) <= UNIT_MAX)
                 && forall l | l in EmittedLabels(g, values) :: l.text != ""
  {
    EntryLabels(g, values);
    hide CommonRules, EmittedLabels, LabelsOf, Repeats;
  }

  /** For texts of ASCII characters the length in characters is the length in bytes. */
  lemma AsciiTextsFit(dlc: nat, g: DbcSignal, values: seq<Label>)
    requires Representable(dlc, g, values)
    requires forall c | c in g.name || c in g.units :: c as int < 0x80
    requires forall l, c | l in values && c in l.text :: c as int < 0x80
    ensures TextsFit(g, values)
  {
    AsciiIff(g.name);
    AsciiIff(g.units);
    forall l | l in values ensures Utf8Length(l.text) == |l.text| { AsciiIff(l.text); }
    hide Utf8Length, InsideMessage, WellFormed, KindOf;
  }

  /** One byte of an Intel signal with factor 0 and with factor 1, 64 bits, and a name, a unit and a label beyond ASCII. */
  const FACTOR_ZERO := DbcSignal("z", 0, 8, true, false, 0.0, 0.0, "", 0, 7)
  const PLAIN_BYTE := FACTOR_ZERO.(factor := 1.0)
  const PLAIN_WORD := PLAIN_BYTE.(size := 64, msb := 63)
  const WIDE_NAME := PLAIN_BYTE.(name := Repeated('\U{00E9}', 40))
  const WIDE_UNIT := PLAIN_BYTE.(units := Repeated('\U{00B0}', 17))
  const WIDE_LABELS := [Label(0, Repeated('\U{6E29}', 30))]

  /** A factor of zero is accepted, and neither compiles nor loads nor has a form the decoder can use. */
  lemma FactorZeroIsNotLoaded(before: seq<string>)
    ensures Representable(8, FACTOR_ZERO, []) && !LoaderAccepts(Entry(FACTOR_ZERO, []), before, PAYLOAD_MAX_BITS)
    ensures !ReaderAccepts(Entry(FACTOR_ZERO, []), [], PAYLOAD_MAX_BITS)
    ensures forall s :: !EmittedFrom(Entry(FACTOR_ZERO, []), s)
  {
    hide ReaderAccepts, EmittedFrom, Entry;
    EntryCompilesIff(8, FACTOR_ZERO, []);
    NotLoaded(8, FACTOR_ZERO, [], before);
    EmittedFormIff(8, FACTOR_ZERO, []);
  }

  /** An empty label is accepted and does not load. */
  lemma EmptyLabelIsNotLoaded(before: seq<string>)
    ensures Representable(8, PLAIN_BYTE, [Label(0, "")])
    ensures !LoaderAccepts(Entry(PLAIN_BYTE, [Label(0, "")]), before, PAYLOAD_MAX_BITS)
  {
    hide LoaderAccepts, Entry;
    var labels := [Label(0, "")];
    assert Label(0, "") in labels;
    NotLoaded(8, PLAIN_BYTE, labels, before);
  }

  /** So is a key of 65 bits for a signal of 64. */
  lemma LongKeyIsNotLoaded(before: seq<string>)
    ensures Representable(8, PLAIN_WORD, [Label(UINT64_MODULUS, "x")])
    ensures !LoaderAccepts(Entry(PLAIN_WORD, [Label(UINT64_MODULUS, "x")]), before, PAYLOAD_MAX_BITS)
  {
    hide LoaderAccepts, Entry;
    var labels := [Label(UINT64_MODULUS, "x")];
    assert labels[0] in labels && labels[0].raw == UINT64_MODULUS;
    NotLoaded(8, PLAIN_WORD, labels, before);
  }

  /** A name that is short in characters and too long in bytes is accepted, and neither compiles nor loads. */
  lemma WideNameIsNotLoaded(before: seq<string>)
    ensures Representable(8, WIDE_NAME, []) && !LoaderAccepts(Entry(WIDE_NAME, []), before, PAYLOAD_MAX_BITS)
    ensures !ReaderAccepts(Entry(WIDE_NAME, []), [], PAYLOAD_MAX_BITS)
  {
    hide LoaderAccepts, ReaderAccepts, Entry, Repeated, Utf8Length;
    RepeatedLength('\U{00E9}', 40);
    EntryCompilesIff(8, WIDE_NAME, []);
    NotLoaded(8, WIDE_NAME, [], before);
  }

  /** So is such a unit. */
  lemma WideUnitIsNotLoaded(before: seq<string>)
    ensures Representable(8, WIDE_UNIT, []) && !LoaderAccepts(Entry(WIDE_UNIT, []), before, PAYLOAD_MAX_BITS)
    ensures !ReaderAccepts(Entry(WIDE_UNIT, []), [], PAYLOAD_MAX_BITS)
  {
    hide LoaderAccepts, ReaderAccepts, Entry, Repeated, Utf8Length;
    RepeatedLength('\U{00B0}', 17);
    EntryCompilesIff(8, WIDE_UNIT, []);
    NotLoaded(8, WIDE_UNIT, [], before);
  }

  /** And so is such a label. */
  lemma WideLabelIsNotLoaded(before: seq<string>)
    ensures Representable(8, PLAIN_BYTE, WIDE_LABELS) && !LoaderAccepts(Entry(PLAIN_BYTE, WIDE_LABELS), before, PAYLOAD_MAX_BITS)
    ensures !ReaderAccepts(Entry(PLAIN_BYTE, WIDE_LABELS), [], PAYLOAD_MAX_BITS)
  {
    hide LoaderAccepts, ReaderAccepts, Entry, Repeated, Utf8Length;
    RepeatedLength('\U{6E29}', 30);
    assert WIDE_LABELS[0] in EmittedLabels(PLAIN_BYTE, WIDE_LABELS);
    EntryCompilesIff(8, PLAIN_BYTE, WIDE_LABELS);
    NotLoaded(8, PLAIN_BYTE, WIDE_LABELS, before);
  }

  lemma NotLoaded(dlc: nat, g: DbcSignal, values: seq<Label>, before: seq<string>)
    requires Representable(dlc, g, values) && !(g.factor != 0.0 && KeysFit(g, values) && LoadedTextsFit(g, values))
    ensures !LoaderAccepts(Entry(g, values), before, PAYLOAD_MAX_BITS)
  {
    hide Representable, KeysFit, LoadedTextsFit, Entry, LoaderParses;
    EntryName(g, values);
    if !Repeats(before, g.name) { EntryLoadsIff(dlc, g, values, before); }
  }

  /**
   An entry has a form that the decoder can use exactly when the factor is not zero
   and its keys fit 64 bits; the lengths of its texts play no part in decoding.
   */
  lemma EmittedFormIff(dlc: nat, g: DbcSignal, values: seq<Label>)
    requires Representable(dlc, g, values)
    ensures (exists s :: EmittedFrom(Entry(g, values), s)) <==> g.factor != 0.0 && KeysFit(g, values)
  {
    var doc := Entry(g, values);
    EntryIsInsidePayload(dlc, g, values);
    EntryLabels(g, values);
    EntryKeys(dlc, g, values);
    if g.factor != 0.0 && KeysFit(g, values) {
      KeysBelowWord(doc);
      EmittedForm(doc);
    } else if s :| EmittedFrom(doc, s) {
      FormCompiles(dlc, g, values, s);
    }
  }

  lemma FormCompiles(dlc: nat, g: DbcSignal, values: seq<Label>, s: Signal)
    requires Representable(dlc, g, values) && EmittedFrom(Entry(g, values), s)
    ensures g.factor != 0.0 && KeysFit(g, values)
  {
    hide InsideMessage, Position, PlacementOf, SpecifiedBit, Pow2;
    assert g.factor == 0.0 ==> !DefaultScale(g);
  }

  lemma EmittedForm(doc: SignalDoc)
    requires KeysAreWords(doc) && InsidePayload(doc, PAYLOAD_MAX_BITS) && doc.startBit < PAYLOAD_MAX_BITS && 1 <= doc.bitLength <= 64
    requires (doc.kind.TypeUint? || doc.kind.TypeInt?) ==> doc.scale != 0.0
    requires doc.kind.TypeBoolean? ==> doc.bitLength == 1
    ensures exists s :: EmittedFrom(doc, s)
  {
    var first: nat := if doc.layout.Sawtooth? then 0 else SpecifiedBit(doc, 0);
    var s := Signal(doc.name, doc.startBit, doc.bitLength, doc.kind, doc.scale, doc.offset,
                    if LabelsOf(doc) == [] then None else Some(Mappings(LabelsOf(doc))),
                    doc.hasMin, doc.min, doc.hasMax, doc.max, doc.strict, first, first + doc.bitLength - 1, doc.layout);
    hide BeIdx, BeBit, Pow2;
    forall i: nat | i < doc.bitLength ensures Position(PlacementOf(s), i) == SpecifiedBit(doc, i) {}
    assert EmittedFrom(doc, s);
  }

  /** The DBC label of a raw value: the first of the table. */
  function DbcLabel(values: seq<Label>, raw: nat): Option<string> {
    if values == [] then None else if values[0].raw == raw then Some(values[0].text) else DbcLabel(values[1..], raw)
  }

  lemma {:induction false} LabelsKept(values: seq<Label>, raw: uint64)
    requires forall l | l in values :: l.raw < UINT64_MODULUS
    ensures FirstLabel(Mappings(values), raw) == DbcLabel(values, raw)
  {
    if values != [] {
      LabelsKept(values[1..], raw);
      assert Mappings(values)[1..] == Mappings(values[1..]);
    }
  }

  /** On every frame at least as long as the message, the signal is inside the frame and holds the DBC raw value. */
  lemma RawMeaningPreserved(dlc: nat, g: DbcSignal, values: seq<Label>, s: Signal, f: seq<byte>)
    requires WellFormed(g) && dlc <= DLC_MAX && InsideMessage(dlc, g)
    requires EmittedFrom(Entry(g, values), s) && |f| >= dlc
    ensures forall i: nat | i < g.size :: DbcBit(g, i) < 8 * |f|
    ensures Fits(PlacementOf(s), |f|)
    ensures DbcRaw(g, f, RawOf(f, PlacementOf(s)))
  {
    var pl := PlacementOf(s);
    forall i: nat | i < g.size ensures Position(pl, i) == DbcBit(g, i) { SameBitsEmitted(g, values, i); }
    FitsIffBitsInside(pl, |f|);
    hide BeIdx, BeBit, PlacementOf, Position, DbcBit, Fits, Loadable;
    var raw := RawOf(f, pl);
    forall i: nat | i < g.size ensures Bit(raw, i) == FrameBit(f, DbcBit(g, i)) {
      assert Bit(raw, i) == BitAt(f, pl, i);
    }
  }

  /** An enum whose frame has bit 63 of the raw value set. */
  predicate TopBitSet(g: DbcSignal, values: seq<Label>, f: seq<byte>) {
    RawReading(g) && values != [] && g.size == 64 && DbcBit(g, 63) < 8 * |f| && FrameBit(f, DbcBit(g, 63))
  }

  /** The kind of value that a DBC signal is read as. */
  predicate ReadAs(g: DbcSignal, values: seq<Label>, v: Value) {
    && (v.Bool? <==> RawReading(g) && g.size == 1)
    && (v.Real? <==> !(g.factor == 1.0 && g.offset == 0.0))
    && (v.Int? <==> g.factor == 1.0 && g.offset == 0.0 && (g.signed || (g.size > 1 && values != [])))
    && (v.Uint? <==> RawReading(g) && g.size > 1 && values == [])
  }

  /** And the signal type: an enum exactly for several unsigned bits with labels and no scaling. */
  predicate TypedAs(g: DbcSignal, values: seq<Label>, kind: SignalType) {
    && (kind.TypeBoolean? <==> RawReading(g) && g.size == 1)
    && (kind.TypeEnum? <==> RawReading(g) && g.size > 1 && values != [])
    && (kind.TypeInt? <==> g.signed)
  }

  /**
   And the decoded value is the DBC physical value, of the kind that the signal
   calls for and with the DBC label of a raw reading -- except for a 64-bit signal
   with value labels, which is emitted as an enum and decodes negative when bit 63
   is set.
   */
  lemma PhysicalMeaningPreserved(dlc: nat, g: DbcSignal, values: seq<Label>, s: Signal, f: seq<byte>)
    requires WellFormed(g) && dlc <= DLC_MAX && InsideMessage(dlc, g)
    requires EmittedFrom(Entry(g, values), s) && |f| >= dlc
    ensures Fits(PlacementOf(s), |f|)
    ensures var d := SignalImage(s, f);
            && (E.Quantity(d.value) == DbcPhysical(g, d.raw) <==> !TopBitSet(g, values, f))
            && ReadAs(g, values, d.value) && TypedAs(g, values, s.kind)
            && d.caption == if RawReading(g) then DbcLabel(values, d.raw) else None
  {
    RawMeaningPreserved(dlc, g, values, s, f);
    WordBound(s, f);
    var raw := RawOf(f, PlacementOf(s));
    ValueMeaning(g, values, s, raw);
    CaptionMeaning(g, values, s, raw);
    KindMeaning(g, values, s, raw);
    TopBitIff(g, f, raw);
    hide ReadAs, TypedAs;
    hide Fits, PlacementOf, Loadable, DbcPhysical, DecodedValue, Pow2, DbcBit, InsideMessage;
  }

  lemma CaptionMeaning(g: DbcSignal, values: seq<Label>, s: Signal, raw: uint64)
    requires EmittedFrom(Entry(g, values), s)
    ensures LabelOf(s, raw) == if RawReading(g) then DbcLabel(values, raw) else None
  {
    EmittedKind(g, values, s);
    hide Position, PlacementOf, SpecifiedBit, Loadable, KindOf;
    if (s.kind.TypeBoolean? || s.kind.TypeEnum?) && values != [] { LabelsKept(values, raw); }
  }

  lemma KindMeaning(g: DbcSignal, values: seq<Label>, s: Signal, raw: uint64)
    requires EmittedFrom(Entry(g, values), s) && g.size >= 1
    ensures ReadAs(g, values, DecodedValue(s, raw)) && TypedAs(g, values, s.kind)
  {
    EmittedKind(g, values, s);
    hide EmittedFrom, Entry, KindOf, SignExtend;
  }

  lemma TopBitIff(g: DbcSignal, f: seq<byte>, raw: uint64)
    requires 1 <= g.size <= 64 && forall i: nat | i < g.size :: DbcBit(g, i) < 8 * |f|
    requires DbcRaw(g, f, raw)
    ensures raw >= INT64_LIMIT <==> g.size == 64 && FrameBit(f, DbcBit(g, 63))
  {
    Pow2Facts();
    if g.size < 64 {
      Pow2Mono(g.size, 63);
    } else {
      assert Bit(raw, 63) == FrameBit(f, DbcBit(g, 63));
      TopBitOfWord(raw);
    }
    hide Pow2, DbcBit, Bit;
  }

  lemma TopBitOfWord(raw: uint64)
    ensures Bit(raw, 63) <==> raw >= INT64_LIMIT
  {
    BitIsShiftAndMask(raw, 63);
    Pow2Facts();
    if raw >= INT64_LIMIT {
      DivUnique(raw, INT64_LIMIT, 1, raw - INT64_LIMIT);
    } else {
      DivUnique(raw, INT64_LIMIT, 0, raw);
    }
  }

  /** What an emitted signal says of the source signal, kind by kind. */
  lemma EmittedKind(g: DbcSignal, values: seq<Label>, s: Signal)
    requires EmittedFrom(Entry(g, values), s)
    ensures s.kind == KindOf(g, values) && s.bitLength == g.size && 1 <= g.size <= 64
    ensures s.kind.TypeBoolean? ==> g.size == 1
    ensures s.kind.TypeBoolean? || s.kind.TypeEnum? ==> !g.signed && DefaultScale(g)
    ensures s.kind.TypeInt? || s.kind.TypeUint? ==> s.scale == g.factor && s.offset == g.offset && g.signed == s.kind.TypeInt?
    ensures TypedAs(g, values, s.kind) && !s.hasMin && !s.hasMax
  {
    hide Position, PlacementOf, SpecifiedBit, Mappings;
  }

  lemma NumberMeaning(g: DbcSignal, s: Signal, raw: uint64)
    requires 1 <= s.bitLength <= 64 && (s.kind.TypeUint? || s.kind.TypeInt?)
    requires s.bitLength == g.size && s.scale == g.factor && s.offset == g.offset && g.signed == s.kind.TypeInt?
    ensures E.Quantity(DecodedValue(s, raw)) == DbcPhysical(g, raw)
  {
    hide SignExtend;
  }

  lemma FlagMeaning(s: Signal, raw: uint64)
    requires 1 <= s.bitLength <= 64 && s.kind.TypeBoolean? && raw < 2
    ensures E.Quantity(DecodedValue(s, raw)) == raw as real
  {
  }

  lemma EnumMeaning(s: Signal, raw: uint64)
    requires 1 <= s.bitLength <= 64 && s.kind.TypeEnum?
    ensures E.Quantity(DecodedValue(s, raw)) == raw as real <==> raw < INT64_LIMIT
  {
  }

  lemma DefaultPhysical(g: DbcSignal, raw: uint64)
    requires 1 <= g.size <= 64 && !g.signed && DefaultScale(g)
    ensures DbcPhysical(g, raw) == raw as real
  {
  }

  lemma ValueMeaning(g: DbcSignal, values: seq<Label>, s: Signal, raw: uint64)
    requires EmittedFrom(Entry(g, values), s) && raw < Pow2(s.bitLength)
    ensures E.Quantity(DecodedValue(s, raw)) == DbcPhysical(g, raw)
            <==> !(s.kind.TypeEnum? && raw >= INT64_LIMIT)
  {
    EmittedKind(g, values, s);
    if s.kind.TypeBoolean? { assert Pow2(1) == 2; }
    hide SignExtend, EmittedFrom, Entry, KindOf, DecodedValue, E.Quantity, DefaultScale, Pow2, DbcPhysical;
    if s.kind.TypeUint? || s.kind.TypeInt? {
      NumberMeaning(g, s, raw);
    } else {
      DefaultPhysical(g, raw);
      if s.kind.TypeBoolean? { FlagMeaning(s, raw); } else { EnumMeaning(s, raw); }
    }
  }

  /**
   dbc2codec preserves meaning, for every signal it accepts and every frame of
   the message: a form that the decoder can use exists exactly when the factor is
   not zero and the keys fit, and every such form has the DBC raw value, the DBC
   physical value unless an enum has its top bit set, and the DBC label.
   */
  lemma MeaningPreserved(dlc: nat, g: DbcSignal, values: seq<Label>, f: seq<byte>)
    requires Representable(dlc, g, values) && |f| >= dlc
    ensures (exists s :: EmittedFrom(Entry(g, values), s)) <==> g.factor != 0.0 && KeysFit(g, values)
    ensures forall s | EmittedFrom(Entry(g, values), s) :: KeepsMeaning(g, values, s, f)
  {
    hide KeysFit, EmittedFrom, Entry;
    EmittedFormIff(dlc, g, values);
    forall s | EmittedFrom(Entry(g, values), s) ensures KeepsMeaning(g, values, s, f) {
      FormKeepsMeaning(dlc, g, values, s, f);
    }
  }

  lemma FormKeepsMeaning(dlc: nat, g: DbcSignal, values: seq<Label>, s: Signal, f: seq<byte>)
    requires Representable(dlc, g, values) && |f| >= dlc && EmittedFrom(Entry(g, values), s)
    ensures KeepsMeaning(g, values, s, f)
  {
    RawMeaningPreserved(dlc, g, values, s, f);
    PhysicalMeaningPreserved(dlc, g, values, s, f);
    hide Fits, PlacementOf, DbcRaw, DbcPhysical, TopBitSet, DbcBit, InsideMessage, Position, SpecifiedBit;
  }

  /** The decoder reads of a frame what the DBC defines. */
  ghost predicate KeepsMeaning(g: DbcSignal, values: seq<Label>, s: Signal, f: seq<byte>) {
    && Loadable(s) && Fits(PlacementOf(s), |f|) && 1 <= g.size <= 64
    && (forall i: nat | i < g.size :: DbcBit(g, i) < 8 * |f|)
    && var d := SignalImage(s, f);
    && DbcRaw(g, f, d.raw)
    && (E.Quantity(d.value) == DbcPhysical(g, d.raw) <==> !TopBitSet(g, values, f))
    && ReadAs(g, values, d.value) && TypedAs(g, values, s.kind)
    && d.caption == if RawReading(g) then DbcLabel(values, d.raw) else None
  }

  /** What is read of a frame can be written back: the emitted limits never stand in the way. */
  lemma ReadingIsWritable(dlc: nat, g: DbcSignal, values: seq<Label>, s: Signal, f: seq<byte>)
    requires WellFormed(g) && dlc <= DLC_MAX && InsideMessage(dlc, g)
    requires EmittedFrom(Entry(g, values), s) && |f| >= dlc
    ensures Fits(PlacementOf(s), |f|)
    ensures E.Encoded(s, SignalImage(s, f).value) == E.Accepted(SignalImage(s, f).raw, false) <==> !TopBitSet(g, values, f)
  {
    RawMeaningPreserved(dlc, g, values, s, f);
    WordBound(s, f);
    var raw := RawOf(f, PlacementOf(s));
    EmittedKind(g, values, s);
    T.EncodeOfDecode(s, raw);
    TopBitIff(g, f, raw);
    hide Fits, PlacementOf, DecodedValue, Pow2, DbcBit, InsideMessage, E.Encoded, EmittedFrom, Entry, KindOf;
  }

  lemma EntryName(g: DbcSignal, values: seq<Label>)
    ensures Entry(g, values).name == g.name
  {
  }
}
