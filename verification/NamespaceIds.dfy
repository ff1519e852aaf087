/**
 What the recomputed ids and the names of the signal namespace promise
 (core/codec/src/namespace.c): inverse traversals, stability, and exactly when a
 name resolves.
 */
module NamespaceIds {
  import opened Wrappers
  import opened CodecTypes
  import opened Namespace
  import opened Words
  import opened Names

  /** No entry occurs twice. */
  lemma EntriesAreDistinct(maps: seq<MapDef>, a: nat, b: nat)
    requires Coherent(maps) && a < b < |Entries(maps)|
    ensures Entries(maps)[a] != Entries(maps)[b]
  {
    hide Entries, Flat, Tagged;
    var i, j := EntryOrigin(maps, a);
    var k, l := EntryOrigin(maps, b);
    if i == k {
      assert maps[i] in maps;
      assert Flat(maps[i].messages)[j].name != Flat(maps[i].messages)[l].name;
    } else if i < k {
      assert maps[i].name != maps[k].name;
    } else {
      assert maps[k].name != maps[i].name;
    }
  }

  /** The id of the signal at position k, counting from zero. */
  lemma IdOfPosition(maps: seq<MapDef>, k: nat)
    requires Coherent(maps) && k < |Entries(maps)|
    ensures IdOf(maps, Entries(maps)[k]) == U32(k + 1)
  {
    hide Coherent, Entries, U32, FirstIndex;
    var es := Entries(maps);
    forall j | 0 <= j < k ensures es[j] != es[k] {
      EntriesAreDistinct(maps, j, k);
    }
    FirstIndexIs(es, es[k], k);
  }

  /** The number of signals of a list of messages, and of a list of maps. */
  function SignalsOf(messages: seq<seq<SignalDef>>): nat {
    if messages == [] then 0 else SignalsOf(messages[..|messages| - 1]) + |messages[|messages| - 1]|
  }

  function SignalsIn(maps: seq<MapDef>): nat {
    if maps == [] then 0 else SignalsIn(maps[..|maps| - 1]) + SignalsOf(maps[|maps| - 1].messages)
  }

  lemma {:induction false} FlatLength(messages: seq<seq<SignalDef>>)
    ensures |Flat(messages)| == SignalsOf(messages)
  {
    if messages != [] { FlatLength(messages[..|messages| - 1]); }
  }

  lemma {:induction false} EntriesLength(maps: seq<MapDef>)
    ensures |Entries(maps)| == SignalsIn(maps)
  {
    if maps != [] {
      EntriesLength(maps[..|maps| - 1]);
      FlatLength(maps[|maps| - 1].messages);
    }
    hide Flat, SignalsOf;
  }

  /** Ids count the signals of the earlier maps, then those of the earlier messages, then the earlier ones of the message. */
  lemma IdCountsEarlier(maps: seq<MapDef>, i: nat, m: nat, s: nat)
    requires Coherent(maps) && i < |maps| && m < |maps[i].messages| && s < |maps[i].messages[m]|
    ensures IdOf(maps, Entry(maps[i], maps[i].messages[m][s]))
            == U32(SignalsIn(maps[..i]) + SignalsOf(maps[i].messages[..m]) + s + 1)
  {
    hide Coherent, Entries, Flat, SignalsOf, SignalsIn, IdOf, U32;
    var messages := maps[i].messages;
    FlatLength(messages[..m]);
    EntriesLength(maps[..i]);
    FlatPrefix(messages, m, s);
    var k := SignalsOf(messages[..m]) + s;
    EntriesPrefix(maps, i, k);
    IdOfPosition(maps, SignalsIn(maps[..i]) + k);
  }

  /** An id resolves back to the signal it was computed for. */
  predicate ComesBack(maps: seq<MapDef>, e: Entry) {
    IdOf(maps, e) != ID_NONE && EntryOf(maps, IdOf(maps, e)) == Some(e)
  }

  lemma ComesBackIff(maps: seq<MapDef>, k: nat)
    requires Coherent(maps) && k < |Entries(maps)|
    ensures k + 1 < UINT32_MODULUS ==> ComesBack(maps, Entries(maps)[k])
    ensures k + 1 == UINT32_MODULUS ==> !ComesBack(maps, Entries(maps)[k])
  {
    hide Coherent, Entries, IdOf;
    IdOfPosition(maps, k);
  }

  /** The two traversals invert each other on all registered signals exactly when their number fits an id. */
  lemma IdsAreInverseIff(maps: seq<MapDef>)
    requires Coherent(maps)
    ensures (forall k | 0 <= k < |Entries(maps)| :: ComesBack(maps, Entries(maps)[k])) <==> |Entries(maps)| < UINT32_MODULUS
  {
    hide Coherent, Entries, ComesBack;
    if |Entries(maps)| < UINT32_MODULUS {
      forall k | 0 <= k < |Entries(maps)| ensures ComesBack(maps, Entries(maps)[k]) {
        ComesBackIff(maps, k);
      }
    } else {
      ComesBackIff(maps, UINT32_MODULUS - 1);
    }
  }

  /** The ids that resolve are 1 to the number of signals, and each is the id of what it resolves to. */
  lemma IdsAreDense(maps: seq<MapDef>, id: nat)
    requires Coherent(maps) && |Entries(maps)| < UINT32_MODULUS && 0 < id < UINT32_MODULUS
    ensures EntryOf(maps, id).Some? <==> id <= |Entries(maps)|
    ensures EntryOf(maps, id).Some? ==> IdOf(maps, EntryOf(maps, id).value) == id
  {
    hide Coherent, Entries, IdOf;
    if id <= |Entries(maps)| { IdOfPosition(maps, id - 1); }
  }

  /** Whatever a name resolves to is a registered signal, with its id. */
  lemma ResolvedIsRegistered(maps: seq<MapDef>, name: string)
    requires Resolved(maps, name).1.Some?
    ensures Resolved(maps, name).0 == Status.Ok
    ensures var r := Resolved(maps, name).1.value;
      r.entry in Entries(maps) && r.id == IdOf(maps, r.entry)
  {
    hide Entries, Flat, IdOf, Tagged, Matches;
    if Dot(name) < |name| {
      var i := MapNamed(maps, name[..Dot(name)]);
      var k := Named(Flat(maps[i].messages), name[Dot(name) + 1..]);
      EntriesPrefix(maps, i, k);
    } else {
      LastMatchIsEntry(Entries(maps), name);
    }
  }

  lemma {:induction false} LastMatchIsEntry(es: seq<Entry>, name: string)
    ensures LastMatch(es, name).Some? ==> LastMatch(es, name).value in es
  {
    if es != [] { LastMatchIsEntry(es[..|es| - 1], name); }
  }

  /** Resolving a name and then its id gives the same signal. */
  lemma ResolveThenResolveId(maps: seq<MapDef>, name: string)
    requires Coherent(maps) && |Entries(maps)| < UINT32_MODULUS && Resolved(maps, name).1.Some?
    ensures var r := Resolved(maps, name).1.value;
      r.id != ID_NONE && EntryOf(maps, r.id) == Some(r.entry)
  {
    hide Coherent, Entries, Resolved, IdOf, EntryOf;
    ResolvedIsRegistered(maps, name);
    var e := Resolved(maps, name).1.value.entry;
    var k :| 0 <= k < |Entries(maps)| && Entries(maps)[k] == e;
    ComesBackIff(maps, k);
  }

  // ---------------------------------------------------------------------------
  // Names
  // ---------------------------------------------------------------------------

  function CanonicalName(e: Entry): string {
    e.codec.name + "." + e.signal.name
  }

  lemma DotOfCanonical(e: Entry)
    ensures Dot(CanonicalName(e)) <= |e.codec.name|
    ensures '.' !in e.codec.name <==> Dot(CanonicalName(e)) == |e.codec.name|
  {
    var name := CanonicalName(e);
    var n := |e.codec.name|;
    assert name[n] == '.';
    assert forall j | 0 <= j < n :: name[j] == e.codec.name[j];
    if Dot(name) < n { assert e.codec.name[Dot(name)] == '.'; }
  }

  /** The canonical name of a registered signal resolves to it exactly when it can be split at its first dot. */
  lemma CanonicalNameResolvesIff(maps: seq<MapDef>, k: nat)
    requires Coherent(maps) && k < |Entries(maps)|
    ensures var e := Entries(maps)[k];
      Resolved(maps, CanonicalName(e)) == (Status.Ok, Some(Resolution(IdOf(maps, e), e)))
      <==> e.codec.name != "" && '.' !in e.codec.name && e.signal.name != ""
  {
    hide Entries, Flat, Tagged, IdOf, Matches, LastMatch, MapNamed, Named, Dot;
    var e := Entries(maps)[k];
    var name := CanonicalName(e);
    var n := |e.codec.name|;
    DotOfCanonical(e);
    assert Dot(name) < |name|;
    if Dot(name) == n {
      assert name[..n] == e.codec.name && name[n + 1..] == e.signal.name;
      var i, j := EntryOrigin(maps, k);
      if e.codec.name != "" && e.signal.name != "" { CanonicalFinds(maps, i, j); }
    } else if Canonical(maps, name[..Dot(name)], name[Dot(name) + 1..]).1.Some? {
      CanonicalNames(maps, name[..Dot(name)], name[Dot(name) + 1..]);
      assert |name[..Dot(name)]| < n;
    }
  }

  lemma CanonicalFinds(maps: seq<MapDef>, i: nat, j: nat)
    requires Coherent(maps) && i < |maps| && j < |Flat(maps[i].messages)|
    requires maps[i].name != "" && Flat(maps[i].messages)[j].name != ""
    ensures var e := Entry(maps[i], Flat(maps[i].messages)[j]);
      Canonical(maps, e.codec.name, e.signal.name) == (Status.Ok, Some(Resolution(IdOf(maps, e), e)))
  {
    hide Entries, Flat, Tagged, IdOf, MapNamed, Named;
    var signals := Flat(maps[i].messages);
    assert maps[i] in maps;
    MapNamedIs(maps, maps[i].name, i);
    NamedIs(signals, signals[j].name, j);
  }

  lemma CanonicalNames(maps: seq<MapDef>, prefix: string, suffix: string)
    requires Canonical(maps, prefix, suffix).1.Some?
    ensures var e := Canonical(maps, prefix, suffix).1.value.entry;
      e.codec.name == prefix && e.signal.name == suffix
  {
  }

  /**
   A name with a dot, split at the first one, is resolved in the map of its first part
   or not at all; empty parts are refused.
   */
  lemma DottedNameOutcome(maps: seq<MapDef>, prefix: string, suffix: string)
    requires '.' !in prefix
    ensures var (status, out) := Resolved(maps, prefix + "." + suffix);
      && (status == ErrArgument <==> prefix == "" || suffix == "")
      && (status == Status.Ok <==> out.Some?)
      && (out.Some? ==> out.value.entry.codec in maps && out.value.entry.codec.name == prefix
                        && out.value.entry.signal in Flat(out.value.entry.codec.messages) && out.value.entry.signal.name == suffix)
      && (status == Status.Ok || status == ErrArgument || status == ErrNotFound)
      && (status == ErrNotFound && Coherent(maps) ==>
            forall codec, signal | codec in maps && signal in Flat(codec.messages) :: codec.name != prefix || signal.name != suffix)
    ensures Resolved(maps, "") == (ErrArgument, None)
  {
    hide Flat, IdOf, Entries;
    var name := prefix + "." + suffix;
    var d := |prefix|;
    assert name[d] == '.';
    forall j | 0 <= j < d ensures name[j] != '.' { assert prefix[j] in prefix; }
    assert Dot(name) == d;
    assert name[..d] == prefix && name[d + 1..] == suffix;
    if Resolved(maps, name).0 == ErrNotFound && Coherent(maps) { NotFoundIsNowhere(maps, prefix, suffix); }
    hide Dot, Coherent;
  }

  lemma NotFoundIsNowhere(maps: seq<MapDef>, prefix: string, suffix: string)
    requires Coherent(maps) && Canonical(maps, prefix, suffix).0 == ErrNotFound
    ensures forall codec, signal | codec in maps && signal in Flat(codec.messages) :: codec.name != prefix || signal.name != suffix
  {
    hide Flat, IdOf, Entries;
    forall codec, signal | codec in maps && signal in Flat(codec.messages) ensures codec.name != prefix || signal.name != suffix {
      if codec.name == prefix {
        var i :| 0 <= i < |maps| && maps[i] == codec;
        MapNamedIs(maps, prefix, i);
        var j :| 0 <= j < |Flat(codec.messages)| && Flat(codec.messages)[j] == signal;
      }
    }
  }

  lemma {:induction false} MatchesNone(es: seq<Entry>, name: string)
    requires forall k | 0 <= k < |es| :: es[k].signal.name != name
    ensures Matches(es, name) == 0
  {
    if es != [] { MatchesNone(es[..|es| - 1], name); }
  }

  lemma {:induction false} MatchesOne(es: seq<Entry>, name: string, k: nat)
    requires k < |es| && forall j | 0 <= j < |es| :: es[j].signal.name == name <==> j == k
    ensures Matches(es, name) == 1 && LastMatch(es, name) == Some(es[k])
  {
    if k == |es| - 1 {
      MatchesNone(es[..k], name);
    } else {
      MatchesOne(es[..|es| - 1], name, k);
    }
  }

  lemma {:induction false} MatchesSome(es: seq<Entry>, name: string, k: nat)
    requires k < |es| && es[k].signal.name == name
    ensures Matches(es, name) >= 1
  {
    if k < |es| - 1 { MatchesSome(es[..|es| - 1], name, k); }
  }

  lemma {:induction false} MatchesTwo(es: seq<Entry>, name: string, j: nat, k: nat)
    requires j < k < |es| && es[j].signal.name == name == es[k].signal.name
    ensures Matches(es, name) >= 2
  {
    if k < |es| - 1 {
      MatchesTwo(es[..|es| - 1], name, j, k);
    } else {
      MatchesSome(es[..k], name, j);
    }
  }

  /** The one signal of a short name. */
  predicate OnlyMatch(es: seq<Entry>, name: string, k: nat)
    requires k < |es|
  {
    forall j | 0 <= j < |es| :: es[j].signal.name == name <==> j == k
  }

  ghost predicate HasMatch(es: seq<Entry>, name: string) {
    exists k: nat | k < |es| :: es[k].signal.name == name
  }

  ghost predicate HasOnlyMatch(es: seq<Entry>, name: string) {
    exists k: nat | k < |es| :: OnlyMatch(es, name, k)
  }

  lemma {:induction false} MatchesCount(es: seq<Entry>, name: string)
    ensures Matches(es, name) == 0 <==> !HasMatch(es, name)
    ensures Matches(es, name) == 1 <==> HasOnlyMatch(es, name)
    ensures Matches(es, name) == 1 ==> LastMatch(es, name).Some?
  {
    hide Matches, LastMatch;
    if HasOnlyMatch(es, name) {
      var k: nat :| k < |es| && OnlyMatch(es, name, k);
      assert es[k].signal.name == name;
    }
    if k: nat :| k < |es| && es[k].signal.name == name {
      MatchesSome(es, name, k);
      if OnlyMatch(es, name, k) {
        MatchesOne(es, name, k);
      } else {
        var j :| 0 <= j < |es| && es[j].signal.name == name && j != k;
        MatchesTwo(es, name, if j < k then j else k, if j < k then k else j);
      }
    } else {
      MatchesNone(es, name);
    }
  }

  /** With no signal of a short name it is not found, with exactly one it resolves, and otherwise it is ambiguous. */
  lemma ShortNameOutcome(maps: seq<MapDef>, name: string)
    requires name != "" && '.' !in name
    ensures Resolved(maps, name).0
            == if !HasMatch(Entries(maps), name) then ErrNotFound
               else if HasOnlyMatch(Entries(maps), name) then Status.Ok
               else ErrAmbiguous
  {
    hide Entries, IdOf, Matches, LastMatch, HasMatch, HasOnlyMatch;
    assert Dot(name) == |name|;
    MatchesCount(Entries(maps), name);
  }

  /** And what it resolves to is the only signal of that name. */
  lemma ShortNameResolvesIff(maps: seq<MapDef>, name: string, k: nat)
    requires name != "" && '.' !in name && k < |Entries(maps)| && Coherent(maps)
    ensures var es := Entries(maps);
      Resolved(maps, name) == (Status.Ok, Some(Resolution(IdOf(maps, es[k]), es[k]))) <==> OnlyMatch(es, name, k)
  {
    hide Entries, IdOf, Matches, LastMatch, Coherent;
    var es := Entries(maps);
    assert Dot(name) == |name|;
    ShortNameOutcome(maps, name);
    if Resolved(maps, name).0 == Status.Ok {
      var i: nat :| i < |es| && OnlyMatch(es, name, i);
      MatchesOne(es, name, i);
      if i != k { EntriesAreDistinct(maps, if i < k then i else k, if i < k then k else i); }
    }
  }

  // ---------------------------------------------------------------------------
  // Stability
  // ---------------------------------------------------------------------------

  lemma {:induction false} EntriesGrow(maps: seq<MapDef>, more: seq<MapDef>)
    requires maps <= more
    ensures Entries(maps) <= Entries(more)
  {
    if |maps| < |more| {
      EntriesGrow(maps, more[..|more| - 1]);
    } else {
      assert maps == more;
    }
  }

  lemma {:induction false} FirstIndexStable<T>(s: seq<T>, t: seq<T>, x: T)
    requires s <= t && x in s
    ensures FirstIndex(t, x) == FirstIndex(s, x)
  {
    FirstIndexFinds(s, x);
    FirstIndexIs(t, x, FirstIndex(s, x));
  }

  /** Registering further maps changes no id that was handed out, and no canonical resolution. */
  lemma IdsAreStable(maps: seq<MapDef>, more: seq<MapDef>, e: Entry, id: nat, prefix: string, suffix: string)
    requires maps <= more && id < UINT32_MODULUS
    ensures e in Entries(maps) ==> IdOf(more, e) == IdOf(maps, e)
    ensures EntryOf(maps, id).Some? ==> EntryOf(more, id) == EntryOf(maps, id)
    ensures Canonical(maps, prefix, suffix).1.Some? ==> Canonical(more, prefix, suffix) == Canonical(maps, prefix, suffix)
  {
    hide Entries, Flat, U32, Tagged;
    EntriesGrow(maps, more);
    if e in Entries(maps) { IdKept(maps, more, e); }
    if Canonical(maps, prefix, suffix).1.Some? {
      var i := MapNamed(maps, prefix);
      var k := Named(Flat(maps[i].messages), suffix);
      MapNamedIs(more, prefix, i);
      EntriesPrefix(maps, i, k);
      IdKept(maps, more, Entry(maps[i], Flat(maps[i].messages)[k]));
    }
  }

  lemma IdKept(maps: seq<MapDef>, more: seq<MapDef>, e: Entry)
    requires maps <= more && e in Entries(maps)
    ensures IdOf(more, e) == IdOf(maps, e)
  {
    hide Entries, U32, FirstIndex;
    EntriesGrow(maps, more);
    FirstIndexStable(Entries(maps), Entries(more), e);
    FirstIndexFinds(Entries(maps), e);
  }

  // ---------------------------------------------------------------------------
  // Maps that the loader built, and maps that it would not
  // ---------------------------------------------------------------------------

  /**
   What the loader makes sure of, for names without a null character: a map name
   without a dot, no empty name, and a bounded number of signals.
   */
  predicate AsLoaded(codec: MapDef) {
    && codec.name != "" && '.' !in codec.name
    && |Flat(codec.messages)| <= 0xFFFF && forall signal | signal in Flat(codec.messages) :: signal.name != ""
  }

  lemma {:induction false} EntriesBound(maps: seq<MapDef>)
    requires forall codec | codec in maps :: AsLoaded(codec)
    ensures |Entries(maps)| <= |maps| * 0xFFFF
  {
    if maps != [] {
      var n := |maps| - 1;
      assert AsLoaded(maps[n]) && forall codec | codec in maps[..n] :: codec in maps;
      hide AsLoaded, Flat;
      EntriesBound(maps[..n]);
      assert Entries(maps) == Entries(maps[..n]) + Tagged(maps[n]);
    }
  }

  /**
   In a namespace of loaded maps, which has at most 256 of them, ids and
   signals determine each other, a resolved name's id resolves to the same signal,
   and every canonical name resolves to its signal.
   */
  lemma LoadedMapsResolve(maps: seq<MapDef>)
    requires Coherent(maps) && |maps| <= 256 && forall codec | codec in maps :: AsLoaded(codec)
    ensures |Entries(maps)| <= 16_776_960
    ensures forall k | 0 <= k < |Entries(maps)| :: ComesBack(maps, Entries(maps)[k])
    ensures forall name | Resolved(maps, name).1.Some? :: IdResolvesAgain(maps, Resolved(maps, name).1.value)
    ensures forall k | 0 <= k < |Entries(maps)| :: CanonicalComesBack(maps, Entries(maps)[k])
  {
    hide Coherent, Entries, Resolved, ComesBack, CanonicalComesBack;
    EntriesBound(maps);
    IdsAreInverseIff(maps);
    forall name | Resolved(maps, name).1.Some? ensures IdResolvesAgain(maps, Resolved(maps, name).1.value) {
      ResolveThenResolveId(maps, name);
    }
    forall k: nat | k < |Entries(maps)| ensures CanonicalComesBack(maps, Entries(maps)[k]) {
      LoadedNameResolves(maps, k);
    }
  }

  predicate IdResolvesAgain(maps: seq<MapDef>, r: Resolution) {
    r.id < UINT32_MODULUS && r.id != ID_NONE && EntryOf(maps, r.id) == Some(r.entry)
  }

  predicate CanonicalComesBack(maps: seq<MapDef>, e: Entry) {
    Resolved(maps, CanonicalName(e)) == (Status.Ok, Some(Resolution(IdOf(maps, e), e)))
  }

  lemma LoadedNameResolves(maps: seq<MapDef>, k: nat)
    requires Coherent(maps) && k < |Entries(maps)| && forall codec | codec in maps :: AsLoaded(codec)
    ensures CanonicalComesBack(maps, Entries(maps)[k])
  {
    hide Coherent, Entries, Resolved, Flat, CanonicalName, IdOf;
    CanonicalNameResolvesIff(maps, k);
    var i, j := EntryOrigin(maps, k);
    assert maps[i] in maps && Flat(maps[i].messages)[j] in Flat(maps[i].messages);
  }

  /** A map as a tool might generate it, of one signal. */
  method OneSignalMap(name: string, signalName: string) returns (codec: MapDef)
    ensures codec.name == name && Coherent([codec]) && |Entries([codec])| == 1
    ensures Entries([codec])[0].codec == codec && Entries([codec])[0].signal.name == signalName
  {
    var signal := new SignalDef(signalName);
    codec := new MapDef(name, [[signal]]);
    assert Flat([[signal]]) == [signal];
    assert Entries([codec]) == Tagged(codec);
  }

  /** A dot in the map name, an empty map name and an empty signal name each lose the canonical name. */
  method LostNames() returns (dotted: MapDef, nameless: MapDef, silent: MapDef)
    ensures Coherent([dotted]) && |Entries([dotted])| == 1 && CanonicalName(Entries([dotted])[0]) == "a.b.s"
    ensures Resolved([dotted], "a.b.s") == (ErrNotFound, None)
    ensures Coherent([nameless]) && |Entries([nameless])| == 1 && CanonicalName(Entries([nameless])[0]) == ".s"
    ensures Resolved([nameless], ".s") == (ErrArgument, None)
    ensures Coherent([silent]) && |Entries([silent])| == 1 && CanonicalName(Entries([silent])[0]) == "a."
    ensures Resolved([silent], "a.") == (ErrArgument, None)
  {
    hide Coherent, Entries;
    dotted := OneSignalMap("a.b", "s");
    nameless := OneSignalMap("", "s");
    silent := OneSignalMap("a", "");
    assert Dot("a.b.s") == 1 && Dot(".s") == 0 && Dot("a.") == 1;
  }

  /** Signals of different names. */
  method ManySignals(n: nat) returns (signals: seq<SignalDef>)
    ensures |signals| == n && DistinctNames(signals)
  {
    signals := [];
    for i := 0 to n
      invariant |signals| == i && forall j | 0 <= j < i :: |signals[j].name| == j + 1
    {
      var signal := new SignalDef(Repeated('s', i + 1));
      signals := signals + [signal];
    }
  }

  /** A list cut into messages of equal length. */
  function Cut(signals: seq<SignalDef>, size: nat, count: nat): (messages: seq<seq<SignalDef>>)
    requires |signals| == size * count
    ensures |messages| == count && forall m | m in messages :: |m| == size
    decreases count
  {
    if count == 0 then [] else
      assert size * count == size * (count - 1) + size;
      Cut(signals[..size * (count - 1)], size, count - 1) + [signals[size * (count - 1)..]]
  }

  lemma {:induction false} CutIsFlat(signals: seq<SignalDef>, size: nat, count: nat)
    requires |signals| == size * count
    ensures Flat(Cut(signals, size, count)) == signals
    decreases count
  {
    if count != 0 {
      assert size * count == size * (count - 1) + size;
      var most := size * (count - 1);
      CutIsFlat(signals[..most], size, count - 1);
      var messages := Cut(signals, size, count);
      assert messages[..count - 1] == Cut(signals[..most], size, count - 1);
    }
  }

  /** Two maps within the uint16_t counts of their C types whose last signals have no id of their own. */
  method TooManySignals() returns (maps: seq<MapDef>)
    ensures Coherent(maps) && |maps| == 2
    ensures forall codec | codec in maps :: |codec.messages| <= 0xFFFF && forall m | m in codec.messages :: |m| <= 0xFFFF
    ensures |Entries(maps)| > UINT32_MODULUS && !ComesBack(maps, Entries(maps)[UINT32_MODULUS - 1])
  {
    hide Coherent, Entries, ComesBack, Cut;
    var signals := ManySignals(0xFFFF * 0xFFFF);
    var messages := Cut(signals, 0xFFFF, 0xFFFF);
    CutIsFlat(signals, 0xFFFF, 0xFFFF);
    var a := new MapDef("a", messages);
    var b := new MapDef("b", messages);
    maps := [a, b];
    TwoMaps(a, b);
    ComesBackIff(maps, UINT32_MODULUS - 1);
  }

  lemma TwoMaps(a: MapDef, b: MapDef)
    requires a.name != b.name && a.messages == b.messages && a.messages != [] && DistinctNames(Flat(a.messages))
    ensures Coherent([a, b]) && |Entries([a, b])| == 2 * |Flat(a.messages)|
  {
    hide Flat;
    assert [a, b][..1] == [a] && [a][..0] == [];
    assert Entries([a]) == Entries([]) + Tagged(a);
  }
}
