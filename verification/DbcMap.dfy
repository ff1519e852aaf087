/** The map that dbc2codec builds of a whole database (tools/dbc2codec/dbc2codec.py). */
module DbcMap {
  import opened Bits
  import opened CodecBits
  import opened CodecTypes
  import opened Wrappers
  import opened Words
  import opened Names
  import opened CodecMap
  import opened Dbc

  datatype MappedMessage = MappedMessage(id: nat, name: string, dlc: int, signals: seq<SignalDoc>)

  type ValueTable = map<(nat, string), seq<Label>>

  function ValuesOf(table: ValueTable, frameId: nat, name: string): seq<Label> {
    if (frameId, name) in table then table[(frameId, name)] else []
  }

  ghost predicate Accepts(table: ValueTable, m: DbcMessage, g: DbcSignal) {
    |g.name| <= NAME_MAX && InsideMessage(m.size, g) && LabelsFit(g, ValuesOf(table, m.frameId, g.name))
  }

  predicate InRange(m: DbcMessage) { 1 <= m.size <= DLC_MAX }

  /** The entry that a signal of a message gets. */
  function EntryIn(table: ValueTable, m: DbcMessage, g: DbcSignal): SignalDoc {
    Entry(g, ValuesOf(table, m.frameId, g.name))
  }

  ghost predicate EntryFrom(table: ValueTable, m: DbcMessage, e: SignalDoc) {
    exists g | g in m.signals :: Accepts(table, m, g) && e == EntryIn(table, m, g)
  }

  ghost predicate EntriesFrom(table: ValueTable, m: DbcMessage, es: seq<SignalDoc>) {
    forall e | e in es :: EntryFrom(table, m, e)
  }

  /** An emitted message has the header of a message in range, without the extended-frame flag, and entries of its signals. */
  ghost predicate MessageFrom(table: ValueTable, m: DbcMessage, o: MappedMessage) {
    && InRange(m) && o.id == IdOf(m) && o.name == m.name && o.dlc == m.size
    && o.signals != [] && EntriesFrom(table, m, o.signals)
  }

  ghost predicate SomeMessageFrom(table: ValueTable, messages: seq<DbcMessage>, o: MappedMessage) {
    exists m | m in messages :: MessageFrom(table, m, o)
  }

  function SignalNames(ss: seq<SignalDoc>): seq<string> {
    seq(|ss|, i requires 0 <= i < |ss| => ss[i].name)
  }

  /** All signal names of a map, in emission order. */
  function MapNames(ms: seq<MappedMessage>): seq<string> {
    if ms == [] then [] else MapNames(ms[..|ms| - 1]) + SignalNames(ms[|ms| - 1].signals)
  }

  /** The id that a message is emitted with: the frame id without its upper bits. */
  function IdOf(m: DbcMessage): (id: nat)
    ensures id < 0x2000_0000 && exists upper: nat :: m.frameId == upper * 0x2000_0000 + id
  {
    var upper: nat := m.frameId / 0x2000_0000;
    assert m.frameId == upper * 0x2000_0000 + m.frameId % 0x2000_0000;
    m.frameId % 0x2000_0000
  }

  predicate DistinctIds(messages: seq<DbcMessage>) {
    forall i, j | 0 <= i < j < |messages| :: IdOf(messages[i]) != IdOf(messages[j])
  }

  predicate DistinctMappedIds(ms: seq<MappedMessage>) {
    forall a, b | 0 <= a < b < |ms| :: ms[a].id != ms[b].id
  }

  ghost predicate IdBefore(messages: seq<DbcMessage>, n: nat, id: nat)
    requires n <= |messages|
  {
    exists k: nat | k < n :: IdOf(messages[k]) == id
  }

  /** A signal of that name was accepted before signal j of message i. */
  ghost predicate AcceptedBefore(table: ValueTable, messages: seq<DbcMessage>, i: nat, j: nat, name: string) {
    exists a: nat, b: nat | a < |messages| && b < |messages[a].signals| ::
      (a < i || (a == i && b < j)) && InRange(messages[a]) && Accepts(table, messages[a], messages[a].signals[b])
      && messages[a].signals[b].name == name
  }

  /** A signal is emitted when it is accepted, its message is in range, and no accepted one of its name comes before it. */
  ghost predicate Kept(table: ValueTable, messages: seq<DbcMessage>, i: nat, j: nat)
    requires i < |messages| && j < |messages[i].signals|
  {
    && InRange(messages[i]) && Accepts(table, messages[i], messages[i].signals[j])
    && !AcceptedBefore(table, messages, i, j, messages[i].signals[j].name)
  }

  /** The entries of the first n signals of a message. */
  ghost function KeptEntries(table: ValueTable, messages: seq<DbcMessage>, i: nat, n: nat): seq<SignalDoc>
    requires i < |messages| && n <= |messages[i].signals|
  {
    if n == 0 then []
    else KeptEntries(table, messages, i, n - 1)
         + if Kept(table, messages, i, n - 1) then [EntryIn(table, messages[i], messages[i].signals[n - 1])] else []
  }

  ghost function EntriesOf(table: ValueTable, messages: seq<DbcMessage>, i: nat): seq<SignalDoc>
    requires i < |messages|
  {
    KeptEntries(table, messages, i, |messages[i].signals|)
  }

  /** What the first n messages become: those with entries, in order. */
  ghost function Mapped(table: ValueTable, messages: seq<DbcMessage>, n: nat): seq<MappedMessage>
    requires n <= |messages|
  {
    if n == 0 then []
    else
      var m, es := messages[n - 1], EntriesOf(table, messages, n - 1);
      Mapped(table, messages, n - 1) + if es == [] then [] else [MappedMessage(IdOf(m), m.name, m.size, es)]
  }

  lemma DistinctAppend(names: seq<string>, n: string)
    requires Distinct(names) && n !in names
    ensures Distinct(names + [n])
  {
  }

  // ---------------------------------------------------------------------------
  // What that document is
  // ---------------------------------------------------------------------------

  lemma NoneBefore(table: ValueTable, messages: seq<DbcMessage>, name: string)
    ensures !AcceptedBefore(table, messages, 0, 0, name)
  {
  }

  lemma BeforeStep(table: ValueTable, messages: seq<DbcMessage>, i: nat, j: nat, name: string)
    requires i < |messages| && j < |messages[i].signals|
    ensures AcceptedBefore(table, messages, i, j + 1, name) <==>
            AcceptedBefore(table, messages, i, j, name)
            || (InRange(messages[i]) && Accepts(table, messages[i], messages[i].signals[j]) && messages[i].signals[j].name == name)
  {
    hide Accepts, InRange;
  }

  /** After the last signal of a message comes the first of the next. */
  lemma BeforeNext(table: ValueTable, messages: seq<DbcMessage>, i: nat, name: string)
    requires i < |messages|
    ensures AcceptedBefore(table, messages, i + 1, 0, name) <==> AcceptedBefore(table, messages, i, |messages[i].signals|, name)
  {
    hide Accepts, InRange;
  }

  /** The names of the entries kept of the first n signals, together with the names before, are all accepted names so far. */
  lemma {:induction false} KeptNamesAre(table: ValueTable, messages: seq<DbcMessage>, i: nat, n: nat, name: string)
    requires i < |messages| && n <= |messages[i].signals|
    ensures AcceptedBefore(table, messages, i, n, name)
            <==> AcceptedBefore(table, messages, i, 0, name) || name in SignalNames(KeptEntries(table, messages, i, n))
  {
    hide Accepts, AcceptedBefore, InRange, EntryIn;
    if n == 0 {
      assert SignalNames(KeptEntries(table, messages, i, 0)) == [];
    } else {
      KeptNamesAre(table, messages, i, n - 1, name);
      BeforeStep(table, messages, i, n - 1, name);
      KeptStep(table, messages, i, n - 1);
    }
  }

  lemma KeptStep(table: ValueTable, messages: seq<DbcMessage>, i: nat, n: nat)
    requires i < |messages| && n < |messages[i].signals|
    ensures SignalNames(KeptEntries(table, messages, i, n + 1))
            == SignalNames(KeptEntries(table, messages, i, n)) + if Kept(table, messages, i, n) then [messages[i].signals[n].name] else []
  {
    hide Kept, Entry;
    var m := messages[i];
    EntryName(m.signals[n], ValuesOf(table, m.frameId, m.signals[n].name));
  }

  lemma MappedStep(table: ValueTable, messages: seq<DbcMessage>, n: nat)
    requires n < |messages|
    ensures MapNames(Mapped(table, messages, n + 1)) == MapNames(Mapped(table, messages, n)) + SignalNames(EntriesOf(table, messages, n))
  {
    hide EntriesOf;
    var out, es := Mapped(table, messages, n), EntriesOf(table, messages, n);
    if es == [] {
      assert Mapped(table, messages, n + 1) == out;
      assert MapNames(out) + SignalNames(es) == MapNames(out);
    } else {
      var m := messages[n];
      assert Mapped(table, messages, n + 1) == out + [MappedMessage(IdOf(m), m.name, m.size, es)];
      hide Mapped;
      MapNamesStep(out, MappedMessage(IdOf(m), m.name, m.size, es));
    }
  }

  lemma MapNamesStep(ms: seq<MappedMessage>, o: MappedMessage)
    ensures MapNames(ms + [o]) == MapNames(ms) + SignalNames(o.signals)
  {
    assert (ms + [o])[..|ms|] == ms;
  }

  /** The signal names of the document are the names of the accepted signals. */
  lemma {:induction false} MappedNamesAre(table: ValueTable, messages: seq<DbcMessage>, n: nat, name: string)
    requires n <= |messages|
    ensures name in MapNames(Mapped(table, messages, n)) <==> AcceptedBefore(table, messages, n, 0, name)
  {
    hide KeptEntries, AcceptedBefore, MapNames;
    if n == 0 {
      NoneBefore(table, messages, name);
      assert MapNames([]) == [] by { NoNames(); }
    } else {
      MappedNamesAre(table, messages, n - 1, name);
      KeptNamesAre(table, messages, n - 1, |messages[n - 1].signals|, name);
      BeforeNext(table, messages, n - 1, name);
      MappedStep(table, messages, n - 1);
    }
  }

  lemma NoNames()
    ensures MapNames([]) == []
  {
  }

  lemma {:induction false} KeptStayDistinct(table: ValueTable, messages: seq<DbcMessage>, i: nat, n: nat, names: seq<string>)
    requires i < |messages| && n <= |messages[i].signals|
    requires Distinct(names) && forall name | name in names :: AcceptedBefore(table, messages, i, 0, name)
    ensures Distinct(names + SignalNames(KeptEntries(table, messages, i, n)))
  {
    hide Accepts, AcceptedBefore, InRange, EntryIn;
    if n == 0 {
      assert names + SignalNames(KeptEntries(table, messages, i, 0)) == names;
    } else {
      KeptStayDistinct(table, messages, i, n - 1, names);
      KeptStep(table, messages, i, n - 1);
      var before := SignalNames(KeptEntries(table, messages, i, n - 1));
      if Kept(table, messages, i, n - 1) {
        var name := messages[i].signals[n - 1].name;
        KeptNamesAre(table, messages, i, n - 1, name);
        DistinctAppend(names + before, name);
        assert names + (before + [name]) == names + before + [name];
      } else {
        assert before + [] == before;
      }
    }
  }

  lemma {:induction false} MappedNamesDiffer(table: ValueTable, messages: seq<DbcMessage>, n: nat)
    requires n <= |messages|
    ensures Distinct(MapNames(Mapped(table, messages, n)))
  {
    hide KeptEntries, AcceptedBefore, MapNames, SignalNames;
    if n == 0 {
      NoNames();
    } else {
      MappedNamesDiffer(table, messages, n - 1);
      MappedStep(table, messages, n - 1);
      var names := MapNames(Mapped(table, messages, n - 1));
      forall name | name in names ensures AcceptedBefore(table, messages, n - 1, 0, name) {
        MappedNamesAre(table, messages, n - 1, name);
      }
      KeptStayDistinct(table, messages, n - 1, |messages[n - 1].signals|, names);
    }
  }

  lemma {:induction false} KeptAreFrom(table: ValueTable, messages: seq<DbcMessage>, i: nat, n: nat)
    requires i < |messages| && n <= |messages[i].signals|
    ensures EntriesFrom(table, messages[i], KeptEntries(table, messages, i, n))
    ensures KeptEntries(table, messages, i, n) != [] ==> InRange(messages[i])
  {
    hide Accepts, AcceptedBefore, InRange, EntryIn;
    if n != 0 {
      KeptAreFrom(table, messages, i, n - 1);
      assert messages[i].signals[n - 1] in messages[i].signals;
    }
  }

  /** Every emitted message is that of a source message, with entries of accepted signals of it, and so are its ids. */
  lemma {:induction false} MappedAreFrom(table: ValueTable, messages: seq<DbcMessage>, n: nat)
    requires n <= |messages|
    ensures forall o | o in Mapped(table, messages, n) :: SomeMessageFrom(table, messages, o)
    ensures forall a | 0 <= a < |Mapped(table, messages, n)| :: IdBefore(messages, n, Mapped(table, messages, n)[a].id)
    ensures DistinctIds(messages) ==> DistinctMappedIds(Mapped(table, messages, n))
  {
    hide EntriesFrom, IdOf, EntriesOf, InRange;
    if n != 0 {
      MappedAreFrom(table, messages, n - 1);
      var out, es := Mapped(table, messages, n - 1), EntriesOf(table, messages, n - 1);
      EntriesOfAreFrom(table, messages, n - 1);
      assert messages[n - 1] in messages;
      assert IdBefore(messages, n, IdOf(messages[n - 1]));
      forall a | 0 <= a < |out| ensures IdBefore(messages, n, out[a].id) && (DistinctIds(messages) ==> out[a].id != IdOf(messages[n - 1])) {
        assert IdBefore(messages, n - 1, out[a].id);
      }
    }
  }

  lemma EntriesOfAreFrom(table: ValueTable, messages: seq<DbcMessage>, i: nat)
    requires i < |messages|
    ensures EntriesFrom(table, messages[i], EntriesOf(table, messages, i))
    ensures EntriesOf(table, messages, i) != [] ==> InRange(messages[i])
  {
    KeptAreFrom(table, messages, i, |messages[i].signals|);
  }

  /** The values that a table has for a signal. */
  function TableEntry(table: ValueTable, m: DbcMessage, g: DbcSignal): seq<Label> {
    var key := (m.frameId, g.name);
    if key !in table then [] else table[key]
  }

  /** A message of one to eight bytes, a name and labels of at most 64 characters, labels that fit the width, all bits inside. */
  ghost predicate Emittable(table: ValueTable, m: DbcMessage, g: DbcSignal) {
    && 1 <= m.size <= 8 && |g.name| <= 64
    && (forall i: nat | i < g.size :: DbcBit(g, i) < 8 * m.size)
    && (forall l | l in TableEntry(table, m, g) :: |l.text| <= 64 && (g.size < 64 ==> l.raw < Pow2(g.size)))
  }

  lemma EmittableIff(table: ValueTable, m: DbcMessage, g: DbcSignal)
    requires WellFormed(g)
    ensures Emittable(table, m, g) <==> InRange(m) && Accepts(table, m, g)
  {
    if 1 <= m.size <= 8 { RepresentableIff(m.size, g, TableEntry(table, m, g)); }
    hide DbcBit, Pow2, WellFormed;
  }

  /** A name is in the document exactly when some signal of that name is emittable. */
  lemma NameIsEmittedIff(table: ValueTable, messages: seq<DbcMessage>, name: string)
    requires forall m, g | m in messages && g in m.signals :: WellFormed(g)
    ensures name in MapNames(Mapped(table, messages, |messages|))
            <==> exists m, g | m in messages && g in m.signals :: g.name == name && Emittable(table, m, g)
  {
    hide Accepts, InRange, Mapped, MapNames, Emittable, WellFormed;
    MappedNamesAre(table, messages, |messages|, name);
    forall m, g | m in messages && g in m.signals ensures Emittable(table, m, g) <==> InRange(m) && Accepts(table, m, g) {
      EmittableIff(table, m, g);
    }
    if AcceptedBefore(table, messages, |messages|, 0, name) {
      var a: nat, b: nat :| a < |messages| && b < |messages[a].signals| && InRange(messages[a])
        && Accepts(table, messages[a], messages[a].signals[b]) && messages[a].signals[b].name == name;
      assert messages[a] in messages && messages[a].signals[b] in messages[a].signals;
    }
    forall m, g | m in messages && g in m.signals && InRange(m) && Accepts(table, m, g) && g.name == name
      ensures AcceptedBefore(table, messages, |messages|, 0, name)
    {
      var a :| 0 <= a < |messages| && messages[a] == m;
      var b :| 0 <= b < |m.signals| && m.signals[b] == g;
    }
  }

  /**
   build_codec_map, with the messages and each message's signals already in
   emission order.  The document holds, in order, every accepted signal that is the
   first of its name.
   */
  method BuildCodecMap(messages: seq<DbcMessage>, table: ValueTable) returns (doc: Option<seq<MappedMessage>>)
    requires forall m, g | m in messages && g in m.signals :: WellFormed(g)
    ensures doc == if Mapped(table, messages, |messages|) == [] then None else Some(Mapped(table, messages, |messages|))
  {
    hide AcceptedBefore, KeptEntries;
    forall n ensures !AcceptedBefore(table, messages, 0, 0, n) { NoneBefore(table, messages, n); }
    var out: seq<MappedMessage> := [];
    var used: set<string> := {};
    for i := 0 to |messages|
      invariant out == Mapped(table, messages, i)
      invariant forall n :: n in used <==> AcceptedBefore(table, messages, i, 0, n)
    {
      var m := messages[i];
      forall n ensures AcceptedBefore(table, messages, i + 1, 0, n) <==> AcceptedBefore(table, messages, i, |m.signals|, n) {
        BeforeNext(table, messages, i, n);
      }
      if !InRange(m) {
        OutOfRange(table, messages, i);
        continue;
      }
      var signals;
      signals, used := BuildSignals(messages, i, table, used);
      if signals == [] { continue; }
      out := out + [MappedMessage(IdOf(m), m.name, m.size, signals)];
    }
    if out == [] { return None; }
    return Some(out);
  }

  /** A message out of range adds nothing. */
  lemma OutOfRange(table: ValueTable, messages: seq<DbcMessage>, i: nat)
    requires i < |messages| && !InRange(messages[i])
    ensures EntriesOf(table, messages, i) == []
    ensures forall n :: AcceptedBefore(table, messages, i, |messages[i].signals|, n) <==> AcceptedBefore(table, messages, i, 0, n)
  {
    EntriesOfAreFrom(table, messages, i);
    hide AcceptedBefore, InRange;
    forall n ensures AcceptedBefore(table, messages, i, |messages[i].signals|, n) <==> AcceptedBefore(table, messages, i, 0, n) {
      KeptNamesAre(table, messages, i, |messages[i].signals|, n);
    }
  }

  /** The inner loop: the signals of one message. */
  method BuildSignals(messages: seq<DbcMessage>, i: nat, table: ValueTable, usedBefore: set<string>)
    returns (signals: seq<SignalDoc>, used: set<string>)
    requires i < |messages| && InRange(messages[i]) && forall g | g in messages[i].signals :: WellFormed(g)
    requires forall n :: n in usedBefore <==> AcceptedBefore(table, messages, i, 0, n)
    ensures signals == EntriesOf(table, messages, i)
    ensures forall n :: n in used <==> AcceptedBefore(table, messages, i, |messages[i].signals|, n)
  {
    hide InsideMessage, LabelsFit, Entry, Accepts, AcceptedBefore;
    var m := messages[i];
    signals, used := [], usedBefore;
    for j := 0 to |m.signals|
      invariant signals == KeptEntries(table, messages, i, j)
      invariant forall n :: n in used <==> AcceptedBefore(table, messages, i, j, n)
    {
      var g := m.signals[j];
      forall n ensures AcceptedBefore(table, messages, i, j + 1, n) <==>
                       AcceptedBefore(table, messages, i, j, n) || (Accepts(table, m, g) && g.name == n) {
        BeforeStep(table, messages, i, j, n);
      }
      if g.name in used { continue; }
      var mapped := MapSignal(m.size, g, ValuesOf(table, m.frameId, g.name));
      AcceptsIs(table, m, g);
      if mapped.None? { continue; }
      signals := signals + [mapped.value];
      used := used + {g.name};
    }
  }

  lemma AcceptsIs(table: ValueTable, m: DbcMessage, g: DbcSignal)
    ensures Accepts(table, m, g)
            <==> |g.name| <= NAME_MAX && InsideMessage(m.size, g) && LabelsFit(g, ValuesOf(table, m.frameId, g.name))
  {
  }

  /**
   In the document every emitted message and entry is that of a source message and an
   accepted signal of it, short names are unique, message ids are if no two frame ids
   agree in their lowest 29 bits, and no acceptable name is lost.
   */
  lemma DocumentIsSound(table: ValueTable, messages: seq<DbcMessage>)
    ensures var doc := Mapped(table, messages, |messages|);
      && Distinct(MapNames(doc)) && (forall o | o in doc :: SomeMessageFrom(table, messages, o))
      && (DistinctIds(messages) ==> DistinctMappedIds(doc))
      && forall m, g | m in messages && g in m.signals && InRange(m) && Accepts(table, m, g) :: g.name in MapNames(doc)
  {
    hide Accepts, Mapped, InRange, MapNames;
    MappedNamesDiffer(table, messages, |messages|);
    MappedAreFrom(table, messages, |messages|);
    forall m, g | m in messages && g in m.signals && InRange(m) && Accepts(table, m, g)
      ensures g.name in MapNames(Mapped(table, messages, |messages|))
    {
      MappedNamesAre(table, messages, |messages|, g.name);
      var a :| 0 <= a < |messages| && messages[a] == m;
      var b :| 0 <= b < |m.signals| && m.signals[b] == g;
    }
  }

  lemma {:induction false} KeptIsIn(table: ValueTable, messages: seq<DbcMessage>, i: nat, n: nat, j: nat)
    requires i < |messages| && n <= |messages[i].signals| && j < n && Kept(table, messages, i, j)
    ensures EntryIn(table, messages[i], messages[i].signals[j]) in KeptEntries(table, messages, i, n)
  {
    hide Kept, EntryIn;
    if j < n - 1 { KeptIsIn(table, messages, i, n - 1, j); }
  }

  lemma {:induction false} MessageIsIn(table: ValueTable, messages: seq<DbcMessage>, n: nat, i: nat)
    requires n <= |messages| && i < n && EntriesOf(table, messages, i) != []
    ensures var m := messages[i];
      MappedMessage(IdOf(m), m.name, m.size, EntriesOf(table, messages, i)) in Mapped(table, messages, n)
  {
    hide EntriesOf, IdOf;
    if i < n - 1 { MessageIsIn(table, messages, n - 1, i); }
  }

  /** The first emittable signal of a name is the one whose entry is in the document, in its own message. */
  lemma FirstOfNameIsEmitted(table: ValueTable, messages: seq<DbcMessage>, i: nat, j: nat) returns (o: MappedMessage)
    requires forall m, g | m in messages && g in m.signals :: WellFormed(g)
    requires i < |messages| && j < |messages[i].signals| && Emittable(table, messages[i], messages[i].signals[j])
    requires forall a: nat, b: nat | a < |messages| && b < |messages[a].signals| && (a < i || (a == i && b < j)) ::
               messages[a].signals[b].name == messages[i].signals[j].name ==> !Emittable(table, messages[a], messages[a].signals[b])
    ensures o in Mapped(table, messages, |messages|) && o.name == messages[i].name && o.dlc == messages[i].size
    ensures Entry(messages[i].signals[j], TableEntry(table, messages[i], messages[i].signals[j])) in o.signals
  {
    forall a: nat, b: nat | a < |messages| && b < |messages[a].signals|
      ensures Emittable(table, messages[a], messages[a].signals[b]) <==> InRange(messages[a]) && Accepts(table, messages[a], messages[a].signals[b])
    {
      assert messages[a] in messages && messages[a].signals[b] in messages[a].signals;
      EmittableIff(table, messages[a], messages[a].signals[b]);
    }
    hide Emittable, Accepts, InRange, WellFormed, IdOf;
    assert Kept(table, messages, i, j);
    hide Kept;
    KeptIsIn(table, messages, i, |messages[i].signals|, j);
    MessageIsIn(table, messages, |messages|, i);
    var m := messages[i];
    o := MappedMessage(IdOf(m), m.name, m.size, EntriesOf(table, messages, i));
  }

  /** Two messages of one signal each whose frame ids differ in the extended-frame flag. */
  const STANDARD := DbcMessage(1, "standard", 8, [PLAIN_BYTE.(name := "x")])
  const EXTENDED := DbcMessage(0x8000_0001, "extended", 8, [PLAIN_BYTE.(name := "y")])

  /** Both are emitted with id 1, which the loader refuses as a duplicate. */
  method MergedIds() returns (doc: Option<seq<MappedMessage>>)
    ensures doc.Some? && !DistinctMappedIds(doc.value)
  {
    hide Accepts, MessageFrom, Mapped;
    doc := BuildCodecMap([STANDARD, EXTENDED], map[]);
    DocumentIsSound(map[], [STANDARD, EXTENDED]);
    PlainIsAccepted(STANDARD);
    PlainIsAccepted(EXTENDED);
    assert "x" in MapNames(doc.value) && "y" in MapNames(doc.value);
    var a := MessageOfName(doc.value, "x");
    var b := MessageOfName(doc.value, "y");
    OnlyMessageOf(doc.value[a], "x", "y");
    OnlyMessageOf(doc.value[b], "y", "x");
  }

  lemma PlainIsAccepted(m: DbcMessage)
    requires m == STANDARD || m == EXTENDED
    ensures Accepts(map[], m, m.signals[0]) && InRange(m) && m.signals[0] in m.signals
  {
  }

  lemma {:induction false} MessageOfName(ms: seq<MappedMessage>, n: string) returns (a: nat)
    requires n in MapNames(ms)
    ensures a < |ms| && n in SignalNames(ms[a].signals)
  {
    var k := |ms| - 1;
    if n in SignalNames(ms[k].signals) { a := k; } else { a := MessageOfName(ms[..k], n); }
  }

  lemma OnlyMessageOf(o: MappedMessage, n: string, other: string)
    requires SomeMessageFrom(map[], [STANDARD, EXTENDED], o) && n in SignalNames(o.signals)
    requires (n == "x" && other == "y") || (n == "y" && other == "x")
    ensures o.id == 1 && other !in SignalNames(o.signals)
  {
    hide Accepts, Entry;
    var m :| m in [STANDARD, EXTENDED] && MessageFrom(map[], m, o);
    assert IdOf(m) == 1;
    forall e | e in o.signals ensures e.name == m.signals[0].name {
      assert EntryFrom(map[], m, e);
      var g :| g in m.signals && Accepts(map[], m, g) && e == EntryIn(map[], m, g);
      EntryName(g, ValuesOf(map[], m.frameId, g.name));
    }
    assert forall i | 0 <= i < |o.signals| :: o.signals[i] in o.signals;
  }

  /** What an emitted entry of a message says of its frames. */
  lemma EmittedEntriesKeepMeaning(table: ValueTable, m: DbcMessage, e: SignalDoc, s: Signal, f: seq<byte>) returns (g: DbcSignal)
    requires InRange(m) && (forall h | h in m.signals :: WellFormed(h)) && EntryFrom(table, m, e)
    requires EmittedFrom(e, s) && |f| >= m.size
    ensures g in m.signals && g.name == e.name && KeepsMeaning(g, TableEntry(table, m, g), s, f)
  {
    hide KeepsMeaning, EmittedFrom, WellFormed, InsideMessage, LabelsFit;
    g :| g in m.signals && Accepts(table, m, g) && e == EntryIn(table, m, g);
    FormKeepsMeaning(m.size, g, ValuesOf(table, m.frameId, g.name), s, f);
  }

  /** An emitted entry of a message loads, after the given names of the map, exactly when its source signal meets the conditions. */
  lemma EmittedEntriesLoadIff(table: ValueTable, m: DbcMessage, e: SignalDoc, before: seq<string>) returns (g: DbcSignal)
    requires InRange(m) && (forall h | h in m.signals :: WellFormed(h)) && EntryFrom(table, m, e) && !Repeats(before, e.name)
    ensures g in m.signals && g.name == e.name
    ensures var values := TableEntry(table, m, g);
      LoaderAccepts(e, before, PAYLOAD_MAX_BITS) <==> g.factor != 0.0 && KeysFit(g, values) && LoadedTextsFit(g, values)
  {
    hide LoaderAccepts, WellFormed, InsideMessage, LabelsFit, KeysFit, LoadedTextsFit, Repeats;
    g :| g in m.signals && Accepts(table, m, g) && e == EntryIn(table, m, g);
    EntryLoadsIff(m.size, g, ValuesOf(table, m.frameId, g.name), before);
  }

  /** Names that are unique in a map, and free of null characters, do not repeat for strcmp. */
  lemma UniqueNamesNeverRepeat(names: seq<string>, i: nat)
    requires Distinct(names) && i < |names| && forall n | n in names :: '\0' !in n
    ensures !Repeats(names[..i], names[i])
  {
    hide UntilNul;
    forall n | n in names[..i] ensures UntilNul(n) != UntilNul(names[i]) {
      var j :| 0 <= j < i && names[j] == n;
    }
  }
}
