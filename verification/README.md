# CANcestry: a verified model

This project models the parts of CANcestry in which a mistake would be silent: the CAN signal
codec and the two tools that prepare its signal descriptions, the FSM back end of `yaml2c` with its
expression recogniser and string literals, the signal namespace, the BMS governor, the trace dump and
the small analyses around it.  `dafny verify dfyconfig.toml` checks everything.

Code that updates state in place is a class or a method over arrays, proved against a specification;
code made of expressions is functions.  What the repository promises is then proved of the
specifications, for all inputs, and a second statement, in other terms and with the numbers written
out, says what each specification comes to.

| files | what they model |
|---|---|
| `Bits`, `Words`, `Names`, `Wrappers` | single bits of words and frames, C integer widths, name lists and text lengths, optional values |
| `CodecBits`, `ByteOrder`, `CodecTypes`, `Encoder`, `Decoder`, `CodecLaws` | bit placement and the C codec; `Placement` maps raw bits to payload bits for all three layouts; what is taken, read and refused, by the fields of a signal |
| `RoundTrip`, `Quantisation`, `MessageRoundTrip` | what encoding followed by decoding gives, for one value, for scaled values, for whole messages |
| `CodecMap`, `Dbc`, `DbcMap` | the signal checks of `yaml2c` beside those of the C loader, and the DBC compiler, tied to what the codec extracts at run time |
| `Fsm`, `FsmSoundness`, `FsmHeader`, `FsmFields`, `FsmWriter`, `FsmSymbols` | the FSM reader, which documents it takes, a reader for the emitted C definitions, the writer, and the symbol names |
| `Expression`, `ExpressionForms`, `Tokenizer`, `Lexemes`, `LexemeForms`, `CString` | the expression grammar and its recogniser, from text to answer, the forms that it accepts, and C string literals |
| `Namespace`, `NamespaceIds` | registration, both id traversals, and name resolution |
| `Governor` | the 64-bit fixed-point limiter and its safety bound |
| `Trace`, `TraceLayout`, `TraceRing`, `TraceOrder`, `TraceRoundTrip`, `Edges` | the dump format byte by byte, the reconstruction of the order, and the edge counters |
| `Fmeda`, `FmedaLaws`, `Linkage`, `Clock` | FMEDA sums and metrics, the safety-trace worklist, the cycle-counter extension |

Conventions.  A `double` of the codec and a `Fraction` of the FMEDA tool are exact reals.  Unsigned C
arithmetic wraps explicitly (`U32`, `U64`).  An exception or an error return is a `Status` or the
result `None`.  A text of a codec map, a DBC file or an FSM is a list of characters; its length is that
list's where the source uses Python's `len`, and `Utf8Length` where it counts bytes.  In the FSM model a
reading of the emitted definitions (`FsmHeader.ReadHeader`) goes top to bottom and fails on a symbol that
is used before it is defined or defined twice.

## What turned out not to hold

Each of these is stated by the members named: an exact condition and an input that fails.

- The doc comment of the edge index charges a fault to an edge only "before that instance's next
  transition"; the code looks past a transition whose detail it cannot read.  The fault counts agree
  exactly when no such transition stands between an edge and a fault
  (`Edges.FaultedIsDocumentedIff`, `Edges.UnreadableTransitionKeepsEdge`).
- `CodecMapReader` says that it validates like the C loader.  Of the signals that it accepts, the loader
  refuses exactly seven kinds: sawtooth with little endianness, which the codec map specification rules out
  too, crossed limits, an empty name, unit (by `strlen`) or label, a mapping that is written but empty, and a
  name that equals (by `strcmp`) one used before anywhere in the map.  Of those that the loader accepts, the reader refuses exactly the ones whose unit
  is too long but seems short to `strlen` because of a null character.  There is no other difference in the
  checks modelled (`CodecMap.LoaderAgreesIff`, `CodecMap.ReaderAgreesIff`, `CodecMap.Disagreements`).
- `map_signal` says that the generated artifact always loads.  It accepts a factor of zero, an empty label,
  a key of more than 64 bits, and, because it counts characters where loader and compiler count bytes, a name,
  a unit or a label beyond ASCII that is too long; none of these loads (`Dbc.EntryCompilesIff`,
  `Dbc.EntryLoadsIff`, `Dbc.FactorZeroIsNotLoaded`, `Dbc.EmptyLabelIsNotLoaded`, `Dbc.LongKeyIsNotLoaded`,
  `Dbc.WideNameIsNotLoaded`, `Dbc.WideUnitIsNotLoaded`, `Dbc.WideLabelIsNotLoaded`).  Nor does a map in which two frame ids came out equal
  because they agree in their lowest 29 bits (`DbcMap.DocumentIsSound`, `DbcMap.MergedIds`).
- An enum of 64 bits with the top bit set decodes to a negative number, so neither round trip holds for
  it (`RoundTrip.ExactRoundTrip`, `RoundTrip.EncodeOfDecode`, `Dbc.PhysicalMeaningPreserved`,
  `RoundTrip.WideEnumTurnsNegative`).
- An accepted value may decode outside the declared limits: a scaled limit may round outwards
  (`Quantisation.HonoursLimitsIff`, `Quantisation.RoundedMinimumIsLeft`), and truncation may carry an unscaled
  one outwards (`Quantisation.UnscaledHonoursLimitsIff`, `Quantisation.FractionalMinimumIsLeft`).
- A quotient of at least 2^63 is cut off rather than rounded, which can cost more than half a step
  (`Quantisation.QuantisationBoundIff`, `Quantisation.CutOffLeavesHalfStep`).
- At a current limit of `UINT32_MAX` the saturated requested current cannot exceed the limit, so DERATE
  and "requested current above the limit" part company (`Governor.DerateIffOverLimit`,
  `Governor.SaturationHidesExcess`).
- The header of the governor says that a null output writes zeros and that the fault code is always written;
  the code then writes nothing at all (`Governor.GateResponse`, `Governor.NullOutputKeepsOld`).
- Namespace ids are a bijection only while the number of signals fits 32 bits
  (`NamespaceIds.IdsAreInverseIff`, `NamespaceIds.TooManySignals`), and a canonical name comes back only if the
  map name is not empty and has no dot and the signal name is not empty
  (`NamespaceIds.CanonicalNameResolvesIff`, `NamespaceIds.LostNames`).  The loader refuses such names and limits
  the signals of a map, so neither happens to loaded maps (`NamespaceIds.LoadedMapsResolve`): only maps written
  by hand or generated can fail, and registration does not check them for it.
- The cycle counter loses time exactly when two readings are 2^32 cycles apart
  (`Clock.AccumulatedIsElapsedIff`, `Clock.LateReadingLosesTime`).  And its microseconds are the true ones only if
  the frequency is a whole number of megahertz, because the cycles per microsecond are cut off
  (`Clock.TimestampsAreExactIff`, `Clock.FractionalMegahertzRunsAhead`).

## Model

| member | source | states |
|---|---|---|
| CodecBits.BeInverse | core/codec/src/codec_bits.h:103-113 | the two sawtooth conversions invert each other |
| CodecBits.PositionInverse | core/codec/src/codec_bits.h:43-186 | for every layout, raw bit and payload bit determine each other |
| CodecBits.LoadRun | core/codec/src/codec_bits.h:43-62 | the contiguous load loop yields the one word whose bits are the placed payload bits |
| CodecBits.LoadSaw | core/codec/src/codec_bits.h:134-150 | the sawtooth load loop does the same along the sawtooth |
| CodecBits.StoreRun | core/codec/src/codec_bits.h:79-101 | the contiguous store writes exactly the placed bits and keeps all others |
| CodecBits.StoreSaw | core/codec/src/codec_bits.h:166-186 | the sawtooth store writes exactly the placed bits and keeps all others |
| CodecBits.SawFits | core/codec/src/codec_bits.h:197-211 | the run-time fit loop equals the closed fit condition |
| CodecBits.SawRange | core/codec/src/codec_bits.h:218-239 | for every uint32_t the extremes are attained and bound every walked bit; without index wrap they are the exact extent |
| CodecBits.FitsIffBitsInside | core/codec/src/codec_bits.h:197-211 | a placement fits iff each of its bits is inside the payload |
| CodecBits.ExtentDecidesFit | core/codec/src/codec_bits.h:197-239 | the greatest placed bit alone decides the fit, for all layouts |
| CodecBits.LoadAfterStore | core/codec/src/codec_bits.h:43-186 | loading what was stored gives it back, for all layouts |
| CodecBits.LoadAfterDisjointStore | core/codec/src/codec_bits.h:43-186 | a store leaves every disjoint placement's word alone |
| CodecBits.StoredUnique | core/codec/src/codec_bits.h:79-186 | the store specification determines the frame |
| ByteOrder.AlignedRunIs | core/codec/src/codec_bits.h:43-62 | a contiguous signal of whole bytes is their little-endian number |
| ByteOrder.AlignedSawIs | core/codec/src/codec_bits.h:134-150 | a sawtooth signal of whole bytes, from the top bit of the first, is their big-endian number |
| CodecTypes.SignExtendValue | core/codec/src/codec_bits.h:270-276 | the shift-up, shift-down form is two's complement |
| CodecTypes.SignExtendOfTwosComplement | core/codec/src/codec_bits.h:270-289 | sign extension undoes the mask for numbers in range |
| CodecTypes.TwosComplementOfSignExtend | core/codec/src/codec_bits.h:270-289 | the mask undoes sign extension for all words |
| Encoder.ApplyLimits | core/codec/src/encoder.c:78-100 | strict refusal, clamping and the warning, in all cases |
| Encoder.EncodeBoolean | core/codec/src/encoder.c:103-126 | agrees with the reference encoding, errors included |
| Encoder.EncodeEnum | core/codec/src/encoder.c:129-154 | agrees with the reference encoding, errors included |
| Encoder.EncodeUintExact | core/codec/src/encoder.c:167-198 | the exact integer path agrees with the reference over reals |
| Encoder.EncodeUint | core/codec/src/encoder.c:157-230 | agrees with the reference encoding, range tests at 64 bits included |
| Encoder.EncodeIntExact | core/codec/src/encoder.c:255-281 | the exact integer path agrees with the reference over reals |
| Encoder.EncodeInt | core/codec/src/encoder.c:233-312 | agrees with the reference encoding, range tests at 64 bits included |
| Encoder.OutcomeFits | core/codec/src/encoder.c:103-312 | an accepted raw word fits the signal's width |
| Encoder.EncodeSignal | core/codec/src/encoder.c:368-422 | every status; an error changes no byte; success stores exactly the word; only a clamp moves the warning counter |
| CodecLaws.KindIsRefusedIff | core/codec/src/encoder.c:103-312 | which kinds of value each signal type refuses as an argument |
| CodecLaws.NumberDecides | core/codec/src/encoder.c:103-312 | among the kinds it takes only the number counts |
| CodecLaws.WholeNumberIsEncoded | core/codec/src/encoder.c:103-154 | a boolean takes 0 and 1, an enum all numbers of its width, limits or not |
| CodecLaws.LimitsAct | core/codec/src/encoder.c:78-100 | inside its limits a value is encoded as if there were none; outside it is refused, or encoded as the limit it passes |
| CodecLaws.EncodeStatusIff | core/codec/src/encoder.c:368-422 | each status by frame length, bit positions and value |
| Decoder.FirstLabelIsFirst | core/codec/src/decoder.c:74-127 | the caption is that of the first mapping with the raw value |
| Decoder.DecodeSignal | core/codec/src/decoder.c:149-176 | null, length and fit errors, and otherwise the signal's image of the frame |
| Decoder.FindMessage | core/codec/src/decoder.c:27-41 | the first message of that id, or none |
| Decoder.DecodeFrame | core/codec/src/decoder.c:208-276 | every status, null pointers included; all images in order, the rest of the output untouched, and the exact counters |
| Decoder.CountedIsSum | core/codec/src/decoder.c:208-276 | the enum counter moves by the number of unlabelled enums modulo 2^32 |
| CodecLaws.ReadingIs | core/codec/src/decoder.c:74-127 | what each signal type makes of a raw word: bit, two's complement number, or scaled number |
| CodecLaws.WordIs | core/codec/src/decoder.c:149-176 | the raw word consists of the placed bits of the frame |
| CodecLaws.CaptionIs | core/codec/src/decoder.c:74-127 | the caption is the first label of the word, and only an enum without one is counted |
| CodecLaws.MessageIsFirst | core/codec/src/decoder.c:27-41 | the message found is the first of its id |
| CodecLaws.FrameStatusIff | core/codec/src/decoder.c:208-276 | what each status of a frame decode says of its arguments |
| RoundTrip.ExactRoundTrip | core/codec/src/encoder.c:103-312 | an unscaled accepted value decodes to the same number iff it is not an unsigned enum value of at least 2^63 |
| RoundTrip.EncodeOfDecode | core/codec/src/decoder.c:74-127 | every raw word, scaled or not, encodes back to itself iff it is not an enum at or above 2^63 |
| RoundTrip.WideEnumTurnsNegative | core/codec/src/decoder.c:74-127 | a 64-bit enum turns 2^63 into -2^63, which it then refuses |
| Quantisation.DecodedIsImage | core/codec/src/encoder.c:37-71 | a decoded value is the image of the clamped value on the raw scale |
| Quantisation.QuantisationBoundIff | core/codec/src/encoder.c:157-312 | at every width an unclamped scaled value comes back within half a step iff its quotient is below 2^63 or its fraction at most one half |
| Quantisation.CutOffLeavesHalfStep | core/codec/src/encoder.c:37-49 | a 64-bit value that comes back three quarters of a step away |
| Quantisation.HonoursLimitsIff | core/codec/src/encoder.c:55-100 | a scaled signal, with either, both or crossed limits, stays in them iff each limit that encodes rounds inwards |
| Quantisation.RoundsUpIff | core/codec/src/encoder.c:37-49 | which way a quotient rounds, by its fraction |
| Quantisation.RoundedMinimumIsLeft | core/codec/src/encoder.c:55-100 | a scaled signal with only a minimum, and a value that leaves it |
| Quantisation.UnscaledHonoursLimitsIff | core/codec/src/encoder.c:78-100 | an unscaled signal stays in its limits iff it is strict or no limit that encodes has a fraction that truncation carries outwards |
| Quantisation.FractionalMinimumIsLeft | core/codec/src/encoder.c:78-100 | an unscaled signal with only a minimum that is left |
| MessageRoundTrip.MessageWordsRoundTrip | core/codec/src/encoder.c:368-422 | encoding disjoint signals of any layouts in any order, then decoding, gives all words; every unused payload bit is unchanged |
| MessageRoundTrip.MessageValuesRoundTrip | core/codec/src/decoder.c:208-276 | and gives all values back, with the enum exception as an iff |
| CodecMap.SignalModel.Read | tools/yaml2c/codec_codegen.py:183-282 | accepts iff name, width, scale, unit, mapping and bit rules hold; what it accepts is a signal the decoder can use, with its fields and specified bits |
| CodecMap.SignalModel.Derive | tools/yaml2c/codec_codegen.py:284-299 | first and last bit are the exact extent of the specified bits |
| CodecMap.CheckIsExact | tools/yaml2c/codec_codegen.py:265-280 | each arithmetic check equals "all bits inside the payload" |
| CodecMap.SpecifiedBitIs | tools/yaml2c/codec_codegen.py:284-299 | where the raw bits go from the start bit: up, down, or down the byte and on to the top of the next |
| CodecMap.LoaderParseSignal | core/codec/src/loader.c:1728-2031 | the loader's checks of one signal accept iff its rules hold: no empty mapping or text, bytes for lengths, strlen for the unit |
| CodecMap.LoaderNamesDiffer | core/codec/src/loader.c:2309-2324 | the search of the map accepts iff no name repeats an earlier one, as strcmp sees them |
| CodecMap.LoaderAgreesIff | core/codec/src/loader.c:1728-2324 | of the signals that the compiler accepts, the loader refuses exactly seven kinds |
| CodecMap.ReaderAgreesIff | tools/yaml2c/codec_codegen.py:183-282 | the compiler accepts all signals that the loader accepts, unless a null character hides the length of a unit |
| CodecMap.Disagreements | tools/yaml2c/codec_codegen.py:183-337 | one signal for each difference |
| CodecMap.StaticFitIsRuntimeFit | tools/yaml2c/codec_codegen.py:265-299 | the derived last bit decides the run-time fit, and a full-size frame always fits |
| Dbc.NewSignal | tools/dbc2codec/dbc2codec.py:113-134 | the constructor's LSB and MSB, and when the table lookup fails |
| Dbc.MapSignal | tools/dbc2codec/dbc2codec.py:216-330 | maps iff name, bits and labels fit the message, and to which entry |
| Dbc.SawtoothInside | tools/dbc2codec/dbc2codec.py:216-330 | the sawtooth scan decides whether all DBC bits are in the payload |
| Dbc.BoundsAreExact | tools/dbc2codec/dbc2codec.py:216-330 | each bounds check equals "all DBC bits are inside the message" |
| Dbc.SingleByteRun | tools/dbc2codec/dbc2codec.py:216-330 | a Motorola signal within a byte is a contiguous run |
| Dbc.EntryIsInsidePayload | tools/dbc2codec/dbc2codec.py:216-330 | an emitted entry has all its bits inside the payload |
| Dbc.EntryCompilesIff | tools/dbc2codec/dbc2codec.py:216-330 | the codec-map compiler accepts the entry of an accepted signal iff the factor is not zero, its keys fit 64 bits and its texts fit in UTF-8 bytes |
| Dbc.EntryLoadsIff | tools/dbc2codec/dbc2codec.py:216-330 | the loader accepts it, after other names, iff the factor is not zero, its keys fit 64 bits, and no emitted text is empty or too long in bytes |
| Dbc.AsciiTextsFit | tools/dbc2codec/dbc2codec.py:216-330 | for texts in ASCII the lengths that `map_signal` checks are enough |
| Dbc.FactorZeroIsNotLoaded | tools/dbc2codec/dbc2codec.py:216-330 | an accepted signal with factor zero has no loaded form |
| Dbc.EmptyLabelIsNotLoaded | tools/dbc2codec/dbc2codec.py:216-330 | an accepted signal with an empty label that does not load |
| Dbc.LongKeyIsNotLoaded | tools/dbc2codec/dbc2codec.py:216-330 | an accepted 64-bit signal with a 65-bit key that does not load |
| Dbc.WideNameIsNotLoaded | tools/dbc2codec/dbc2codec.py:229-230 | an accepted name of 40 characters and 80 bytes that neither compiles nor loads |
| Dbc.WideUnitIsNotLoaded | tools/dbc2codec/dbc2codec.py:272-277 | an accepted unit of 17 characters and 34 bytes that neither compiles nor loads |
| Dbc.WideLabelIsNotLoaded | tools/dbc2codec/dbc2codec.py:279-282 | an accepted label of 30 characters and 90 bytes that neither compiles nor loads |
| Dbc.EmittedFormIff | tools/dbc2codec/dbc2codec.py:216-330 | an accepted signal's entry has a form that the decoder can use iff the factor is not zero and its keys fit 64 bits |
| Dbc.RawMeaningPreserved | tools/dbc2codec/dbc2codec.py:216-330 | every form of the entry that the decoder can use extracts the DBC raw value from every frame of the message's length, and never finds it too short |
| Dbc.PhysicalMeaningPreserved | tools/dbc2codec/dbc2codec.py:216-330 | and the DBC physical value, iff no 64-bit enum has bit 63 of the frame's raw value set; a boolean, an enum, a number or a scaled number exactly as width, sign, factor, offset and labels call for, and with the label of a raw reading |
| Dbc.ReadingIsWritable | tools/dbc2codec/dbc2codec.py:216-330 | with the same exception, what such a form reads of a frame it also encodes, to the same raw word |
| Dbc.MeaningPreserved | tools/dbc2codec/dbc2codec.py:216-330 | for every accepted signal and frame: such a form exists iff the factor is not zero and the keys fit, and every such form keeps the meaning |
| DbcMap.BuildCodecMap | tools/dbc2codec/dbc2codec.py:337-432 | the document is, in order, every accepted signal that is the first of its name, under the header of its message |
| DbcMap.DocumentIsSound | tools/dbc2codec/dbc2codec.py:337-432 | every emitted message and entry is that of a source message and an accepted signal of it, names are unique over the map, ids are if frame ids differ in their lowest 29 bits, and no acceptable name is lost |
| DbcMap.NameIsEmittedIff | tools/dbc2codec/dbc2codec.py:216-432 | a name is in the document iff a signal of that name, in a message of one to eight bytes, has all bits inside, short texts and keys that fit |
| DbcMap.FirstOfNameIsEmitted | tools/dbc2codec/dbc2codec.py:363-371 | the entry of a name is that of the first such signal, in its own message |
| DbcMap.MergedIds | tools/dbc2codec/dbc2codec.py:350-354 | two messages, one standard and one extended, that are emitted with one id |
| DbcMap.EmittedEntriesLoadIff | tools/dbc2codec/dbc2codec.py:337-432 | an entry of an emitted message loads iff its source signal meets the conditions of `EntryLoadsIff` |
| DbcMap.EmittedEntriesKeepMeaning | tools/dbc2codec/dbc2codec.py:337-432 | an entry of an emitted message keeps the meaning of its source signal on that message's frames |
| Fsm.FsmReader.ReadMachine | tools/yaml2c/fsm_codegen.py:255-504 | accepts iff the name is new, all declarations check out, guards, operands and defaults are expressions, and each message sent has a value; indexes the initial state |
| Fsm.FsmReader.ResolveTargets | tools/yaml2c/fsm_codegen.py:601-631 | succeeds iff every target names a state, and sets every index to that state |
| Fsm.FsmReader.ReadInstance | tools/yaml2c/fsm_codegen.py:547-597 | accepts iff the id is new, the machine and overrides exist and their operands are valid, and indexes the machine |
| Fsm.FsmReader.Read | tools/yaml2c/fsm_codegen.py:635-648 | succeeds iff the document compiles, and then leaves the document with every index leading to what its name says and nothing else changed |
| Fsm.CompiledKeepsRest | tools/yaml2c/fsm_codegen.py:601-648 | whatever compiling sets, names, guards, filters, operands, actions, declarations and instances stay as they were |
| Fsm.CompiledIndexesLead | tools/yaml2c/fsm_codegen.py:601-648 | each initial, target and machine index leads to the only state or machine of the name beside it |
| FsmSoundness.CompilesIff | tools/yaml2c/fsm_codegen.py:255-648 | a document compiles iff names are unique and every reference and every expression, wherever it stands, is good |
| Fsm.TargetResolved | tools/yaml2c/fsm_codegen.py:601-631 | each resolved index names the target's position, forward references included |
| Fsm.RunsAgree | tools/yaml2c/fsm_codegen.py:601-631 | following indexes and following names agree over every run from every state |
| Fsm.InitialRunsAgree | tools/yaml2c/fsm_codegen.py:446-504 | and from the initial state, whose index is in range |
| FsmWriter.Writer.Intern | tools/yaml2c/common.py:431-451 | a text gets one symbol that stands for it in the header |
| FsmWriter.Writer.RenderAction | tools/yaml2c/fsm_codegen.py:740-779 | a rendered action reads back as the action |
| FsmWriter.Writer.EmitActionArrays | tools/yaml2c/fsm_codegen.py:708-738 | an emitted action list reads back, or is NULL exactly when empty |
| FsmWriter.Writer.PrepareMachine | tools/yaml2c/fsm_codegen.py:783-805 | all arrays of a machine are emitted before use and point at its parts |
| FsmWriter.Writer.EmitStateArray | tools/yaml2c/fsm_codegen.py:876-892 | an emitted state array reads back as the states |
| FsmWriter.Writer.EmitMachineArray | tools/yaml2c/fsm_codegen.py:955-976 | an emitted machine array reads back as the machines |
| FsmWriter.Writer.EmitInstanceArray | tools/yaml2c/fsm_codegen.py:978-1018 | an emitted instance array reads back as the instances, absent optionals with their flags |
| FsmWriter.Writer.Write | tools/yaml2c/fsm_codegen.py:1020-1044 | the whole header, read top to bottom, denotes the model it was written from |
| FsmHeader.ReadStable | tools/yaml2c/fsm_codegen.py:807-1018 | later definitions never change what an initializer denotes |
| FsmSymbols.NamesAreInjective | tools/yaml2c/fsm_codegen.py:676-679 | different definitions get different C identifiers |
| Expression.AcceptsIffDerivable | tools/yaml2c/expression.py:129-281 | the recogniser accepts a token list iff the grammar derives it, arities and namespaced names included |
| Expression.ParseSound | tools/yaml2c/expression.py:129-281 | whatever a level parses has a derivation of exactly those tokens |
| Expression.ParseComplete | tools/yaml2c/expression.py:129-281 | a derivation before a token that cannot carry it on is parsed to its end |
| Expression.Parser.ParseAll | tools/yaml2c/expression.py:151-156 | the object accepts exactly the accepted lists and never leaves the list |
| Expression.Parser.OrExpr | tools/yaml2c/expression.py:158-166 | the loop advances as the specification says, or fails |
| Expression.Parser.CallExpr | tools/yaml2c/expression.py:216-235 | calls take one to three arguments of the right number |
| Expression.Parser.Primary | tools/yaml2c/expression.py:237-258 | atoms, groups and the refused keywords |
| ExpressionForms.CallIsAcceptedIff | tools/yaml2c/expression.py:216-235 | whatever the arguments, a name before them is accepted iff it is abs or round of one, min or max of two, clamp of three, or `not` of one |
| ExpressionForms.SingleTokenIff | tools/yaml2c/expression.py:237-281 | one token alone is an expression iff it is a number, a truth value, one of the twenty event fields, or sig. or var. with up to 63 characters |
| ExpressionForms.InfixIsAcceptedIff | tools/yaml2c/expression.py:158-206 | between two primaries exactly the thirteen operators make an expression |
| ExpressionForms.LeadIsAcceptedIff | tools/yaml2c/expression.py:178-206 | before a number or a name exactly `not` and minus do |
| ExpressionForms.NotAfterInfixIff | tools/yaml2c/expression.py:158-206 | `not` may follow `and` and `or` and no other operator |
| ExpressionForms.ComparisonsDoNotChain | tools/yaml2c/expression.py:186-190 | two comparisons in a row are refused |
| ExpressionForms.RepetitionIsAccepted | tools/yaml2c/expression.py:158-200 | other operators go on for ever at their level |
| ExpressionForms.LeadsRepeat | tools/yaml2c/expression.py:178-206 | so do `not` and minus before what they apply to |
| ExpressionForms.GroupIsAccepted | tools/yaml2c/expression.py:237-258 | every expression in parentheses is one |
| Tokenizer.Tokenize | tools/yaml2c/expression.py:94-126 | the loop yields the lexeme tokens one after the other, or refuses |
| Lexemes.NumberIsLongest | tools/yaml2c/expression.py:71-91 | no number by the documented form that a text starts with is longer than the scanned one |
| Lexemes.FirstIsLongest | tools/yaml2c/expression.py:94-126 | the token taken is a lexeme, none that the text starts with is longer, and none is taken only if there is none |
| Lexemes.TokensAreLongest | tools/yaml2c/expression.py:94-126 | the tokens of a text are its split into spaces and longest lexemes, and a text without one is refused |
| Lexemes.OneCharacter | tools/yaml2c/expression.py:94-126 | what each character is by itself: number, name, operator, blank or refused |
| LexemeForms.OperatorAloneIff | tools/yaml2c/expression.py:94-126 | the texts that are one operator are these fourteen |
| LexemeForms.NameAloneIff | tools/yaml2c/expression.py:62-126 | those that are one name are a letter or underscore and then letters, digits, underscores and dots |
| LexemeForms.NumberFormsIff | tools/yaml2c/expression.py:71-91 | digits, a point with digits after it, and an exponent with digits after it are put together to one number, and not with any of these digits missing |
| LexemeForms.NumberHasForm | tools/yaml2c/expression.py:71-91 | and every number is put together so |
| Tokenizer.RenderedIsExpressionIff | tools/yaml2c/expression.py:94-301 | written out, a token list is an expression iff the recogniser accepts the list |
| Tokenizer.TokensComeBack | tools/yaml2c/expression.py:71-126 | writing the tokens out and reading them again changes nothing |
| Tokenizer.Validate | tools/yaml2c/expression.py:284-301 | a text is accepted iff it is short enough in UTF-8 bytes and its tokens are an expression |
| CString.StringLiteral | tools/yaml2c/common.py:378-398 | the loop prints the specified literal |
| CString.LiteralReadBack | tools/yaml2c/common.py:378-398 | reading the literal by sections 6.4.4.4 and 6.4.5 of ISO/IEC 9899:1999 yields the bytes |
| CString.LiteralsAreInjective | tools/yaml2c/common.py:378-398 | different texts have different literals |
| CString.PlainIsKept | tools/yaml2c/common.py:378-398 | printable text without quote, backslash and question mark is its own literal |
| CString.LiteralHasNoTrigraph | tools/yaml2c/common.py:378-398 | the literal is printable ASCII without two adjacent question marks |
| Namespace.SignalNamespace.Register | core/codec/src/namespace.c:122-150 | every status in order, the new slot contents, and the names invariant |
| Namespace.SignalNamespace.Size | core/codec/src/namespace.c:53-59 | the number of registered maps, or zero |
| Namespace.SignalNamespace.SignalCount | core/codec/src/namespace.c:61-76 | the number of registered signals modulo 2^32 |
| Namespace.SignalNamespace.SignalAt | core/codec/src/namespace.c:156-181 | the traversal finds the signal at the id's position |
| Namespace.SignalNamespace.IdOfSignal | core/codec/src/namespace.c:187-216 | the other traversal gives the wrapped position of the first occurrence |
| Namespace.SignalNamespace.Resolve | core/codec/src/namespace.c:218-307 | the specified resolution of every name, errors included |
| Namespace.SignalNamespace.ResolveId | core/codec/src/namespace.c:309-324 | the signal of an id, or the error |
| Namespace.HasDuplicateSignalNames | core/codec/src/namespace.c:93-120 | the four nested loops decide whether a short name repeats |
| Namespace.FindSignal | core/codec/src/decoder.c:43-68 | the first signal of a name in map order |
| NamespaceIds.IdsAreInverseIff | core/codec/src/namespace.c:156-216 | the traversals invert each other on all signals iff their number is below 2^32 |
| NamespaceIds.IdsAreDense | core/codec/src/namespace.c:156-216 | exactly the ids 1 to the number of signals resolve, each to its own signal |
| NamespaceIds.IdCountsEarlier | core/codec/src/namespace.c:156-216 | an id counts the signals of the earlier maps, then of the earlier messages, then the earlier ones of its message |
| NamespaceIds.ResolveThenResolveId | core/codec/src/namespace.c:218-324 | resolving a name and then its id gives the same signal |
| NamespaceIds.CanonicalNameResolvesIff | core/codec/src/namespace.c:218-274 | a canonical name comes back iff it splits at its first dot |
| NamespaceIds.DottedNameOutcome | core/codec/src/namespace.c:218-274 | a dotted name is resolved in the map of its first part or not at all, with the error for each case |
| NamespaceIds.LoadedMapsResolve | core/codec/src/loader.c:2209-2340 | for loaded maps, without further condition: ids and signals determine each other, resolved ids resolve again, canonical names come back |
| NamespaceIds.LostNames | core/codec/src/namespace.c:218-274 | a map name with a dot, an empty map name and an empty signal name, each of which loses the canonical name |
| NamespaceIds.TooManySignals | core/codec/src/namespace.c:156-216 | two maps within their uint16_t counts with a signal that has no id |
| NamespaceIds.ShortNameResolvesIff | core/codec/src/namespace.c:276-306 | a short name resolves to a signal iff it is the only one of that name |
| NamespaceIds.ShortNameOutcome | core/codec/src/namespace.c:276-306 | found, not found and ambiguous by the number of signals of that name, none included |
| NamespaceIds.IdsAreStable | core/codec/src/namespace.c:122-216 | further registrations change no id and no canonical resolution |
| Governor.RequestedCurrentMa | core/governor/bms_governor.c:53-70 | the 64-bit code computes the saturated ceiling |
| Governor.SplitDivision | core/governor/bms_governor.c:92-96 | dividing before multiplying loses nothing |
| Governor.GuardIsFalse | core/governor/bms_governor.c:87-90 | the overflow guard is never taken |
| Governor.MaximumPowerW | core/governor/bms_governor.c:78-97 | the split 64-bit division is the saturated exact floor |
| Governor.Evaluate | core/governor/bms_governor.c:115-183 | status and complete evidence for every request |
| Governor.StatusIff | core/governor/bms_governor.c:115-183 | each status by voltage, limit, efficiency and BMS state |
| Governor.RefusalIs | core/governor/bms_governor.c:149-163 | a BMS fault and an invalid input block with their own fault codes; which limits they leave |
| Governor.RequestedCurrentIsLeast | core/governor/bms_governor.c:53-70 | the requested current is the least that supplies the request, for every request |
| Governor.MaximumPowerIsLargest | core/governor/bms_governor.c:78-97 | the maximum power is the largest that the limit supplies |
| Governor.DecisionIs | core/governor/bms_governor.c:165-183 | a request that the limit supplies is allowed as it is, any other derated to the largest supplied power |
| Governor.GateResponse | core/governor/bms_governor.c:202-227 | opens iff the evaluation is OK, writes the allowed values or zeros, and the fault code; with a null output writes nothing |
| Governor.NullOutputKeepsOld | core/governor/bms_governor.c:202-212 | a call with a null output after which the others hold what they held |
| Governor.AllowedPowerIsSafe | core/governor/bms_governor.c:115-183 | the current of the allowed power never exceeds the limit |
| Governor.AllowedPowerIsMost | core/governor/bms_governor.c:115-183 | no larger power up to the request is within the limit |
| Governor.DerateIffOverLimit | core/governor/bms_governor.c:53-183 | when DERATE means a requested current above the limit, as an iff on limit, voltage, efficiency and request |
| Governor.SaturationHidesExcess | core/governor/bms_governor.c:53-70 | the request for which it does not |
| Governor.EvaluationIsIdempotent | core/governor/bms_governor.c:115-183 | asking for what was allowed is allowed unchanged |
| Governor.TorqueKeepsRatio | core/governor/bms_governor.c:99-113 | allowed torque is the floor of the power ratio and never above the request |
| Governor.NoPowerNoTorque | core/governor/bms_governor.c:99-113 | a request for torque without power is allowed nothing |
| Governor.EvaluationIsMonotone | core/governor/bms_governor.c:115-183 | more current, voltage or efficiency never lowers power or torque |
| Governor.TransmitsIffOk | core/governor/bms_governor.c:185-201 | transmission is allowed iff the evaluation is OK; otherwise outputs are zero and a fault is set |
| Trace.BuildDump | tools/trace_viewer/trace_format.py:259-294 | the writer's bytes, or an error |
| TraceRing.StoredIsRing | tools/trace_viewer/trace_format.py:272-284 | the rotation yields the slots of a ring overwritten record by record |
| Trace.ParseRecords | tools/trace_viewer/trace_format.py:172-196 | the records at their offsets, or an error when bytes are missing |
| TraceLayout.RecordLayout | tools/trace_viewer/trace_format.py:286-293 | a written record word by word, and its detail with at least one zero byte |
| TraceLayout.HeaderLayout | tools/trace_viewer/trace_format.py:283-285 | a written header word by word |
| TraceLayout.HeaderIsReadIff | tools/trace_viewer/trace_format.py:147-169 | which 32 bytes are accepted as a header, and as which |
| TraceLayout.RecordIs | tools/trace_viewer/trace_format.py:172-196 | what a reader makes of any bytes of a record |
| TraceLayout.RecordsAreReadIff | tools/trace_viewer/trace_format.py:172-196 | records are read iff the file is long enough for all |
| TraceLayout.DumpIsWrittenIff | tools/trace_viewer/trace_format.py:259-294 | a dump is written iff its numbers fit their words and there is a slot |
| TraceOrder.RotationIsFound | tools/trace_viewer/trace_format.py:199-245 | a strictly increasing rotation is returned, wrapped iff it moves something |
| TraceOrder.OrderIffRotation | tools/trace_viewer/trace_format.py:199-245 | success iff some rotation is strictly increasing, whether or not the ring is called full |
| TraceOrder.RotationIsUnique | tools/trace_viewer/trace_format.py:199-245 | at most one rotation is strictly increasing |
| TraceRoundTrip.HeaderReadBack | tools/trace_viewer/trace_format.py:147-167 | a written header is read back iff the reader supports it |
| TraceRoundTrip.DumpRoundTrip | tools/trace_viewer/trace_format.py:147-294 | reading a written dump yields the newest records in order iff version, size and sequence numbers allow it |
| TraceRoundTrip.ExactDumpRoundTrip | tools/trace_viewer/trace_format.py:147-294 | for increasing sequences the records come back unchanged iff their details fit |
| Edges.MatchIsShortestReading | tools/trace_viewer/trace_viewer.py:121-144 | the regular expression splits at the first arrow that leaves a name |
| Edges.StateEdges | tools/trace_viewer/trace_viewer.py:121-144 | edges counts the matching transitions, faulted the faults by the latest matching transition of their instance |
| Edges.FaultedIsDocumentedIff | tools/trace_viewer/trace_viewer.py:121-144 | the fault counts are those of the doc comment's rule iff no unreadable transition stands between an edge and a fault |
| Edges.UnreadableTransitionKeepsEdge | tools/trace_viewer/trace_viewer.py:121-144 | three records on which code and doc comment differ |
| Fmeda.RowConserves | tools/fmeda-calculator.py:155-202 | the shares are non-negative and add up to the row's rate |
| Fmeda.TotalsBalance | tools/fmeda-calculator.py:245-267 | all = related + excluded, and related = safe + single-point + detected + latent |
| Fmeda.TotalIsSumOfParts | tools/fmeda-calculator.py:245-271 | once fractions check out, the total is the sum over distinct parts |
| Fmeda.Aggregate | tools/fmeda-calculator.py:245-279 | the report, or its refusal |
| Fmeda.AggregatesIff | tools/fmeda-calculator.py:245-279 | a report exists iff rows, parts, fractions and lifetime are valid |
| Fmeda.TotalsHaveMetrics | tools/fmeda-calculator.py:210-242 | sums built from rows are never rejected |
| Fmeda.MetricsAreRatios | tools/fmeda-calculator.py:210-242 | SPFM and LFM lie between 0 and 1 where defined |
| Fmeda.CoverageNeverLowersSpfm | tools/fmeda-calculator.py:155-242 | raising the coverage of a residual row never lowers SPFM |
| FmedaLaws.RowIsAcceptedIff | tools/fmeda-calculator.py:155-202 | which rows are accepted |
| FmedaLaws.SharesAre | tools/fmeda-calculator.py:155-202 | the uncovered part of a violation is single-point, and of the multiple-point share the uncovered part is latent |
| FmedaLaws.SumsAdd | tools/fmeda-calculator.py:245-267 | the sums of two ledgers are the sums of both together |
| FmedaLaws.MetricsSatisfy | tools/fmeda-calculator.py:210-242 | when each metric is defined, and the equation it solves |
| FmedaLaws.LatentCoverageHelps | tools/fmeda-calculator.py:155-242 | raising latent coverage never lowers LFM and never raises the simplified PMHF |
| FmedaLaws.ReportExistsIff | tools/fmeda-calculator.py:245-279 | a report is made iff all rows are accepted, the rows of a part agree and complete it, and the lifetime is positive |
| FmedaLaws.ReportPartsAre | tools/fmeda-calculator.py:245-279 | each part of a report is complete and its rows sum to the rate they give |
| Linkage.Visit | ci/check_capella_model.py:189-195 | the worklist ends with exactly the reachable nodes, cycles included |
| Linkage.CheckSafetyLinkage | ci/check_capella_model.py:165-197 | reports the broken links and exactly the uncovered safety requirements |
| Linkage.GatePassesIff | ci/check_capella_model.py:165-197 | no finding iff all links are intact and every safety requirement reaches a mechanism |
| Linkage.FindingsAre | ci/check_capella_model.py:165-197 | a link is reported iff an end is missing, a requirement HW-SF-digits iff no walk leads from it to a marked component other than the root |
| Clock.AccumulatedIsElapsedIff | platform/cortex_m/hal_stm32.c:37-86 | over a whole run the accumulated cycles are the true ones iff no two readings are 2^32 apart |
| Clock.LateReadingLosesTime | platform/cortex_m/hal_stm32.c:59-86 | a first reading after 2^32 cycles accumulates nothing |
| Clock.CloseReadingsDivideElapsed | platform/cortex_m/hal_stm32.c:59-86 | close readings return the elapsed cycles over the whole cycles per microsecond |
| Clock.TimestampsAreExactIff | platform/cortex_m/hal_stm32.c:37-86 | on all runs of close readings the returned microseconds are the true ones, rounded down, iff the frequency is a multiple of 1 MHz |
| Clock.FractionalMegahertzRunsAhead | platform/cortex_m/hal_stm32.c:37-86 | at 1.5 MHz, 2 microseconds read as 3 |
| Clock.TimestampsNeverDecrease | platform/cortex_m/hal_stm32.c:59-86 | the returned time never decreases, close readings or not |

## Left out

- IEEE rounding, NaN and infinities: the codec's doubles are exact reals.
- Null signal, value and name pointers of the codec and the namespace; null frame, map, output, count, warnings, request and result pointers are modelled.
- The default branch of the decoder's and encoder's switch over the signal type: the model's types are the four valid ones.
- DBC signals of size zero, and the text of a DBC file: the compiler starts from parsed messages.
- The YAML tree: `CodecMapReader`, the C loader and `FsmReader` start from typed fields, so unknown and repeated keys, scalar types, `layout` beside `bit_layout`, lengths of FSM texts other than expressions, and the empty-mapping checks of bindings and overrides are not modelled.
- How a scalar is written and scanned: quoting, escapes (inside double quotes the loader takes a character beyond ASCII byte by byte), and the spelling of numbers (the loader takes value keys in decimal digits only).
- The map and message checks of the codec-map compiler and the loader: ids, names and data lengths of messages, dots in a map name, array counts, CAN FD.
- Refusals of `c_int` and `c_double`: numbers of the FSM model are in range and finite.
- The layout of the generated header beyond its definitions: comments, guards, indentation, and the codec map writer.
- The kinds and texts of error messages, and the columns they name.
- Characters beyond ASCII in expressions, except for the length; C string literals and trace details are bytes, and invalid UTF-8 in a trace detail is kept rather than replaced.
- Trace records' physical index, the timeline, JSON and DOT rendering.
- Pointer aliasing in the governor: `Governor.GateResponse` promises values for three different output cells.
- The visiting order of the worklist, which sorts uuids: any order gives the same set.
- FMEDA ledger parsing, decimal rendering and the mean times derived from the sums.
- The frame FIFO and interrupt handler of the STM32 HAL, whose queue and ring are not part of this model, and a null clock.
